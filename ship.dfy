/**
 * A ship: its cells (Positions), the cells hit so far (Hits) and its size.
 *
 * Placement takes two calls of AddPosition: the first stores the start cell,
 * the second checks the end cell and, if it lies on the start's row or column
 * at distance Size-1, fills in the whole run. The run always grows toward
 * higher columns (or rows) from the start, whichever side the end cell is on.
 */
module Ships {
  import opened Board

  function Abs(x: int): nat {
    if x < 0 then -x else x
  }

  // ---------------------------------------------------------------------------
  // Damage

  /** The hit invariant: every hit is one of the ship's cells, and none is recorded twice. */
  predicate HitsRecorded(hits: seq<Position>, positions: seq<Position>) {
    NoDup(hits) && forall p :: p in hits ==> p in positions
  }

  /** The hit list after a shot at p: p is appended when it is an unhit cell of the ship. */
  function RecordHit(hits: seq<Position>, positions: seq<Position>, p: Position): seq<Position> {
    if p !in hits && p in positions then hits + [p] else hits
  }

  /** Recording a hit keeps the hit invariant, adds at most one entry and never drops one. */
  lemma RecordHitKeepsInvariant(hits: seq<Position>, positions: seq<Position>, p: Position)
    requires HitsRecorded(hits, positions)
    ensures HitsRecorded(RecordHit(hits, positions, p), positions)
    ensures |RecordHit(hits, positions, p)| == |hits| + (if p in positions && p !in hits then 1 else 0)
    ensures RecordHit(hits, positions, p)[..|hits|] == hits
  {
    var h := RecordHit(hits, positions, p);
    if p !in hits && p in positions {
      forall i, j | 0 <= i < j < |h| ensures h[i] != h[j] {
        if j == |hits| {
          assert h[i] == hits[i];
        } else {
          assert h[i] == hits[i] && h[j] == hits[j];
        }
      }
    }
  }

  /** A second shot at the same cell changes nothing. */
  lemma RecordHitIdempotent(hits: seq<Position>, positions: seq<Position>, p: Position)
    ensures RecordHit(RecordHit(hits, positions, p), positions, p) == RecordHit(hits, positions, p)
  {
  }

  /**
   * The destroyed test compares the two counts. Under the hit invariant equal
   * counts mean every cell has been hit; the converse also needs the cells to be
   * distinct, which every completed placement guarantees. A ship without cells
   * counts as destroyed.
   */
  lemma {:induction false} DestroyedIffAllHit(hits: seq<Position>, positions: seq<Position>)
    requires HitsRecorded(hits, positions)
    ensures |hits| == |positions| ==> forall p :: p in positions ==> p in hits
    ensures NoDup(positions) ==> (|hits| == |positions| <==> forall p :: p in positions ==> p in hits)
    ensures positions == [] ==> |hits| == |positions|
  {
    SetOfBound(hits);
    SetOfBound(positions);
    assert SetOf(hits) <= SetOf(positions);
    SubsetCount(SetOf(hits), SetOf(positions));
    if |hits| == |positions| {
      forall p | p in positions ensures p in hits {
        if p !in hits {
          assert SetOf(hits) <= SetOf(positions) - {p};
          SubsetCount(SetOf(hits), SetOf(positions) - {p});
          assert false;
        }
      }
    }
    if NoDup(positions) && forall p :: p in positions ==> p in hits {
      assert SetOf(positions) <= SetOf(hits);
      SubsetCount(SetOf(positions), SetOf(hits));
    }
  }

  // ---------------------------------------------------------------------------
  // Placement

  /**
   * The cells the second AddPosition call stores, given the stored start cell and
   * the proposed end cell, or None when the end cell is rejected.
   */
  function SecondEnd(start: Position, end: Position, size: nat): Option<seq<Position>> {
    if start.row == end.row && Abs(start.column - end.column) == size - 1 then
      Some(Run(start, East, size))
    else if start.column == end.column && Abs(start.row - end.row) == size - 1 then
      Some(Run(start, South, size))
    else
      None
  }

  /**
   * The cells after AddPosition(p) on a ship holding `positions`, or None when
   * the call is refused (positions unchanged).
   */
  function AddedPositions(positions: seq<Position>, size: nat, p: Position): Option<seq<Position>> {
    if |positions| >= 2 then None
    else if |positions| == 0 then Some([p])
    else SecondEnd(positions[0], p, size)
  }

  /**
   * The second end is accepted exactly when it shares the start's row with column
   * distance size-1, or its column with row distance size-1; the result is then
   * `size` distinct cells: the start, followed by the cells after it in increasing
   * column (same row) or increasing row (same column) order.
   */
  lemma SecondEndSpec(start: Position, end: Position, size: nat)
    ensures SecondEnd(start, end, size).Some? <==>
      (start.row == end.row && Abs(start.column - end.column) == size - 1) ||
      (start.column == end.column && Abs(start.row - end.row) == size - 1)
    ensures SecondEnd(start, end, size).Some? ==>
      var run := SecondEnd(start, end, size).value;
      && |run| == size >= 1
      && run[0] == start
      && NoDup(run)
      && ((forall k :: 0 <= k < size ==> run[k] == Position(start.column + k, start.row)) ||
          (forall k :: 0 <= k < size ==> run[k] == Position(start.column, start.row + k)))
  {
    if SecondEnd(start, end, size).Some? {
      if start.row == end.row && Abs(start.column - end.column) == size - 1 {
        RunIsStraight(start, East, size);
      } else {
        RunIsStraight(start, South, size);
      }
    }
  }

  /** When the end cell lies right of (or below) the start, the run ends exactly on it. */
  lemma SecondEndReachesForwardEnd(start: Position, end: Position, size: nat)
    requires SecondEnd(start, end, size).Some?
    requires start.column <= end.column && start.row <= end.row
    ensures end in SecondEnd(start, end, size).value
    ensures SecondEnd(start, end, size).value[size - 1] == end
  {
    SecondEndSpec(start, end, size);
    var run := SecondEnd(start, end, size).value;
    if start.row == end.row && Abs(start.column - end.column) == size - 1 {
      assert run == Run(start, East, size);
      assert run[size - 1] == Shift(start, East, size - 1) == end;
    } else {
      assert run == Run(start, South, size);
      assert run[size - 1] == Shift(start, South, size - 1) == end;
    }
  }

  /** The end cell mirrored through the start cell. */
  function Mirror(start: Position, end: Position): Position {
    Position(2 * start.column - end.column, 2 * start.row - end.row)
  }

  /**
   * Which side of the start the end cell lies on is never consulted: the mirrored
   * end cell gives the same run, and an end cell left of (or above) the start is
   * not part of the run at all.
   */
  lemma SecondEndIgnoresSide(start: Position, end: Position, size: nat)
    ensures SecondEnd(start, Mirror(start, end), size) == SecondEnd(start, end, size)
    ensures SecondEnd(start, end, size).Some? && (end.column < start.column || end.row < start.row) ==>
      end !in SecondEnd(start, end, size).value
  {
    SecondEndSpec(start, end, size);
  }

  /** Start H1 with end E1 for a ship of four: the run is H1 and three cells beyond column H. */
  lemma SecondEndLeavesBoard()
    ensures SecondEnd(Position(7, 1), Position(4, 1), 4) ==
      Some([Position(7, 1), Position(8, 1), Position(9, 1), Position(10, 1)])
    ensures !InGrid(Position(8, 1))
  {
    var run := Run(Position(7, 1), East, 4);
    assert run[1] == Position(8, 1) && run[2] == Position(9, 1) && run[3] == Position(10, 1);
    assert run == [Position(7, 1), Position(8, 1), Position(9, 1), Position(10, 1)];
  }

  /**
   * The first call always stores exactly the given cell; once two or more cells
   * are stored every call is refused.
   */
  lemma AddedPositionsSpec(positions: seq<Position>, size: nat, p: Position)
    ensures |positions| == 0 ==> AddedPositions(positions, size, p) == Some([p])
    ensures |positions| >= 2 ==> AddedPositions(positions, size, p).None?
    ensures AddedPositions(positions, size, p).Some? && |positions| == 1 ==>
      var ps := AddedPositions(positions, size, p).value;
      |ps| == size && ps[0] == positions[0] && NoDup(ps)
  {
    if |positions| == 1 {
      SecondEndSpec(positions[0], p, size);
    }
  }

  // ---------------------------------------------------------------------------

  class Ship {
    var name: string
    var size: nat
    var color: ConsoleColor
    var positions: seq<Position>
    var hits: seq<Position>

    ghost predicate Valid()
      reads this
    {
      HitsRecorded(hits, positions)
    }

    constructor (name: string, size: nat, color: ConsoleColor)
      ensures this.name == name && this.size == size && this.color == color
      ensures positions == [] && hits == [] && Valid()
    {
      this.name := name;
      this.size := size;
      this.color := color;
      positions := [];
      hits := [];
    }

    /** A shot at `position` (None stands for a null reference, which is ignored). */
    method RegisterHit(position: Option<Position>)
      modifies this`hits
      ensures position.None? ==> hits == old(hits)
      ensures position.Some? ==> hits == RecordHit(old(hits), positions, position.value)
      ensures old(Valid()) ==> Valid()
    {
      if position.None? {
        return;
      }
      var p := position.value;
      if old(Valid()) {
        RecordHitKeepsInvariant(hits, positions, p);
      }
      if p !in hits && p in positions {
        hits := hits + [p];
      }
    }

    /** The game's sunk test: as many hits as cells. */
    predicate IsDestroyed()
      reads this
    {
      |hits| == |positions|
    }

    /**
     * On a ship whose hits are distinct cells of its own, a destroyed ship has every
     * cell hit; with distinct cells the converse holds too; a ship with no cells
     * counts as destroyed.
     */
    lemma DestroyedMeansAllHit()
      requires Valid()
      ensures IsDestroyed() ==> forall p :: p in positions ==> p in hits
      ensures NoDup(positions) ==> (IsDestroyed() <==> forall p :: p in positions ==> p in hits)
      ensures positions == [] ==> IsDestroyed()
    {
      DestroyedIffAllHit(hits, positions);
    }

    method AddPosition(position: Position) returns (added: bool)
      modifies this`positions
      ensures added == AddedPositions(old(positions), size, position).Some?
      ensures positions == if added then AddedPositions(old(positions), size, position).value else old(positions)
      ensures old(Valid()) ==> Valid()
    {
      if |positions| >= 2 {
        return false;
      }
      if |positions| == 0 {
        positions := positions + [position];
        return true;
      }
      var first := positions[0];
      if first.row == position.row && Abs(first.column - position.column) == size - 1 {
        var i := first.column + 1;
        while i < size + first.column
          invariant first.column + 1 <= i <= size + first.column
          invariant positions == Run(first, East, i - first.column) && positions[0] == first
        {
          positions := positions + [Position(i, position.row)];
          i := i + 1;
        }
        return true;
      }
      if first.column == position.column && Abs(first.row - position.row) == size - 1 {
        var i := first.row + 1;
        while i < size + first.row
          invariant first.row + 1 <= i <= size + first.row
          invariant positions == Run(first, South, i - first.row) && positions[0] == first
        {
          positions := positions + [Position(position.column, i)];
          i := i + 1;
        }
        return true;
      }
      return false;
    }

    /** AddPosition on text: the text must parse as a board cell, otherwise nothing happens. */
    method AddPositionText(input: string) returns (added: bool)
      modifies this`positions
      ensures ParsePosition(input).None? ==> !added && positions == old(positions)
      ensures ParsePosition(input).Some? ==>
        && added == AddedPositions(old(positions), size, ParsePosition(input).value).Some?
        && positions == if added then AddedPositions(old(positions), size, ParsePosition(input).value).value
                        else old(positions)
      ensures old(Valid()) ==> Valid()
    {
      var parsed := ParsePosition(input);
      if parsed.None? {
        return false;
      }
      added := AddPosition(parsed.value);
    }
  }

  /** A destroyer placed at A1-A2: shooting A1 twice records one hit, A2 then sinks it. */
  method DestroyerScenario() {
    var a1, a2 := Position(0, 1), Position(0, 2);
    var destroyer := new Ship("Destroyer", 2, Red);
    var ok := destroyer.AddPosition(a1);
    assert ok && destroyer.positions == [a1];
    ok := destroyer.AddPosition(a2);
    assert ok && destroyer.positions == [a1, a2];
    destroyer.RegisterHit(Some(a1));
    destroyer.RegisterHit(Some(a1));
    assert destroyer.hits == [a1] && !destroyer.IsDestroyed();
    destroyer.RegisterHit(Some(a2));
    assert destroyer.IsDestroyed();
  }
}
