/**
 * What each side's grid shows: one record per cell with its colour and status.
 * The records are only bookkeeping for display; the fleets are the truth.
 */
module Grid {
  import opened Board

  datatype State = Unknown | Water | Hit | Miss | Ship

  datatype PositionState = PositionState(color: ConsoleColor, position: Position, status: State)

  /** i is the first record about `position`. */
  predicate FirstAt(states: seq<PositionState>, position: Position, i: int) {
    0 <= i < |states| && states[i].position == position &&
    forall j :: 0 <= j < i ==> states[j].position != position
  }

  /**
   * Records a shot at `position`: only the first record about that cell changes.
   * Its status becomes Hit or Miss; its colour turns Red (hit) or Yellow (miss)
   * only if it was still Cyan. With no record about the cell nothing changes.
   */
  method UpdateGrid(states: seq<PositionState>, position: Position, isHit: bool)
    returns (updated: seq<PositionState>)
    ensures |updated| == |states|
    ensures (forall i :: 0 <= i < |states| ==> states[i].position != position) ==> updated == states
    ensures forall i :: FirstAt(states, position, i) ==>
      && updated[i].position == position
      && updated[i].status == (if isHit then Hit else Miss)
      && updated[i].color == (if states[i].color == Cyan then (if isHit then Red else Yellow) else states[i].color)
      && forall j :: 0 <= j < |states| && j != i ==> updated[j] == states[j]
  {
    var i := 0;
    while i < |states| && states[i].position != position
      invariant 0 <= i <= |states|
      invariant forall j :: 0 <= j < i ==> states[j].position != position
    {
      i := i + 1;
    }
    if i == |states| {
      return states;
    }
    var s := states[i];
    var color := if s.color == Cyan then (if isHit then Red else Yellow) else s.color;
    updated := states[i := s.(status := if isHit then Hit else Miss, color := color)];
  }

  /** When the cells of the records are distinct, the first record about a cell is the only one. */
  lemma FirstAtIsUnique(states: seq<PositionState>, position: Position, i: int)
    requires forall a, b :: 0 <= a < b < |states| ==> states[a].position != states[b].position
    requires 0 <= i < |states| && states[i].position == position
    ensures FirstAt(states, position, i)
  {
  }

  /**
   * On a grid holding one record per board cell in board order (as the grids are
   * initialised), a shot at a board cell updates the record at that cell's own
   * index, and a shot off the board matches no record.
   */
  lemma BoardGridLookup(states: seq<PositionState>, p: Position)
    requires |states| == 64 && forall k :: 0 <= k < 64 ==> states[k].position == Cell(k)
    ensures InGrid(p) ==> FirstAt(states, p, (p.row - 1) * 8 + p.column)
    ensures !InGrid(p) ==> forall k :: 0 <= k < |states| ==> states[k].position != p
  {
    AllCellsCoverBoard();
    if InGrid(p) {
      var i := (p.row - 1) * 8 + p.column;
      CellOf(p);
      forall j | 0 <= j < i ensures states[j].position != p {
        CellsAreDistinct(i, j);
      }
    } else {
      forall k | 0 <= k < |states| ensures states[k].position != p {
        assert AllCells()[k] == Cell(k);
      }
    }
  }
}
