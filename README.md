# Battleship rules, modelled in Dafny

This project models the in-memory rules of a console Battleship game on an 8×8
board. Columns are A..H and rows 1..8.

- **Ship damage and placement.** A `Ship` holds its cells (`Positions`), the cells
  hit so far (`Hits`) and its `Size`.
  - `AddPosition` takes a start cell and then an end cell, and expands the pair into
    a straight run.
  - `RegisterHit` records each of the ship's own cells at most once.
  - `IsDestroyed` compares the two counts.
- **The game engine of the console program.** It has these parts:
  - parsing a cell from text;
  - finding the ship on a cell;
  - the computer's random guesses without repeats;
  - the computer's random fleet placement, which samples a start cell, tries
    cardinal directions and commits a run to the next ship;
  - the checks applied to a human placement;
  - the two display grids of `PositionState` records, and how a shot updates them.

The program keeps its state in static fields. Here they are the fields of one
class, `Battle.Game`.

Modules:

- `board.dfy` (`Board`): cells and the text form of a cell. Also directions,
  straight runs, the 64 board cells in grid order, and counting lemmas.
- `ship.dfy` (`Ships`): the `Ship` class. Beside it are the functions that specify
  its updates: `RecordHit`, `AddedPositions` and `SecondEnd`.
- `grid.dfy` (`Grid`): `PositionState` and `State`, and `UpdateGrid`.
- `fleet.dfy` (`Fleet`): the pure functions of the program:
  - the occupied cells of a fleet;
  - `GetShip`;
  - `DoesIntersect`;
  - the human placement step as a function;
  - when a computer placement direction fits.
- `game.dfy` (`Battle`): the `Game` class. It holds both fleets, the placement
  counter, the guess logs and the grids, and the operations that change them.

Randomness is nondeterministic choice. A loop that draws values until one is
acceptable becomes a choice of any acceptable value, made with `:|`.

## Model

| member | source | states |
|---|---|---|
| Board.ParsePosition | Battleship.Ascii/Program.cs:280-292 | text parses exactly when it has two characters, an upper-cased first character A..H and a second character 1..8; a parsed cell is on the board |
| Board.ParseRoundTrip | Battleship.Ascii/Program.cs:280-292 | every board cell is parsed back from its two-character text |
| Board.ParseInverse | Battleship.Ascii/Program.cs:280-292 | a parsed text is the upper-cased text of the cell it yields |
| Board.ParseExamples | Battleship.Ascii.Tests/ParsePositionTests.cs:13-41 | "A1" is column A row 1; "h8" parses; "H20", "Test123", "I1", "A9", "A0" are rejected |
| Board.AllCellsCoverBoard | Battleship.Ascii/Program.cs:350-354 | the row-by-row, column-by-column enumeration lists each of the 64 board cells exactly once and nothing else |
| Board.StartCellsCoverRowsOneToSeven | Battleship.Ascii/Program.cs:483-500 | the computer's start cells are exactly columns A..H by rows 1..7, each once |
| Board.FreeCellExists | Battleship.Ascii/Program.cs:301-306 | when fewer cells are taken than there are distinct candidates, a free candidate exists, so a sampling loop has a value to stop on |
| Board.FullLogCoversBoard | Battleship.Ascii.Tests/ParsePositionTests.cs:25-30 | 64 distinct board cells are the whole board |
| Ships.RecordHitKeepsInvariant | Battleship.GameController/Contracts/Ship.cs:59-63 | recording a shot keeps hits a duplicate-free subset of the cells, adds one entry exactly when the shot is an unhit cell of the ship, and keeps earlier hits |
| Ships.RecordHitIdempotent | Battleship.GameController/Contracts/Ship.cs:59-62 | a second shot at the same cell leaves the hits unchanged |
| Ships.DestroyedIffAllHit | Battleship.GameController/Contracts/Ship.cs:66 | under the hit invariant, equal counts (IsDestroyed) mean every cell is hit; with distinct cells, it is an if-and-only-if; a ship without cells counts as destroyed |
| Ships.AddedPositionsSpec | Battleship.GameController/Contracts/Ship.cs:92-98 | with two or more cells every call is refused; on an empty ship the call stores exactly the given cell; an accepted second call yields Size distinct cells starting at the stored one |
| Ships.Ship.DestroyedMeansAllHit | Battleship.GameController/Contracts/Ship.cs:66 | on a ship whose hits are distinct cells of its own, IsDestroyed means every cell is hit; with distinct cells it is an if-and-only-if; a ship with no cells counts as destroyed |
| Ships.SecondEndSpec | Battleship.GameController/Contracts/Ship.cs:100-126 | the end cell is accepted iff it shares the start's row at column distance Size-1 or its column at row distance Size-1; the run is then the start followed by consecutive increasing columns (or rows), Size distinct cells |
| Ships.SecondEndReachesForwardEnd | Battleship.GameController/Contracts/Ship.cs:104-121 | when the end cell lies right of or below the start, the run ends on it |
| Ships.SecondEndIgnoresSide | Battleship.GameController/Contracts/Ship.cs:106-108 | the end cell mirrored through the start gives the same run, and an end cell left of or above the start is not part of the run |
| Ships.SecondEndLeavesBoard | Battleship.GameController/Contracts/Ship.cs:104-110 | start H1 with end E1 for a ship of four gives H1 and three cells beyond column H |
| Ships.Ship.constructor | Battleship.GameController/Contracts/Ship.cs:21-25 | a new ship has no cells and no hits |
| Ships.Ship.RegisterHit | Battleship.GameController/Contracts/Ship.cs:56-64 | a null shot changes nothing; otherwise the hits become RecordHit of the old hits, and the hit invariant is kept |
| Ships.Ship.AddPosition | Battleship.GameController/Contracts/Ship.cs:89-127 | the result and the new cells are exactly those given by AddedPositions; a refused call leaves the cells unchanged; the hit invariant is kept |
| Ships.Ship.AddPositionText | Battleship.GameController/Contracts/Ship.cs:74-87 | text that does not parse is refused without change; otherwise the call behaves as AddPosition on the parsed cell |
| Grid.UpdateGrid | Battleship.Ascii/Program.cs:267-278 | only the first record of the shot cell changes: its status becomes Hit or Miss, its colour becomes Red or Yellow only if it was Cyan; without such a record nothing changes |
| Grid.FirstAtIsUnique | Battleship.Ascii/Program.cs:269 | when the records' cells are distinct, any record of the cell is the first one |
| Grid.BoardGridLookup | Battleship.Ascii/Program.cs:350-354 | on a grid laid out as the grids are initialised, a board cell's record is at its own index, and an off-board cell has no record |
| Fleet.FlattenSpec | Battleship.Ascii/Program.cs:453 | a cell is among the fleet's occupied cells exactly when some ship holds it; their number is the sum of the ships' cell counts |
| Fleet.NoOverlapCount | Battleship.Ascii.Tests/ParsePositionTests.cs:50-55 | without overlap the occupied cells are distinct, and the number of distinct occupied cells equals the total cell count |
| Fleet.AppendKeepsNoOverlap | Battleship.Ascii/Program.cs:675-678 | appending distinct free cells to one ship keeps the fleet free of overlap |
| Fleet.FindShip | Battleship.Ascii/Program.cs:95-106 | None exactly when no ship holds the cell; otherwise the first ship in fleet order that holds it |
| Fleet.GetShip | Battleship.Ascii/Program.cs:83-107 | a null fleet or a null shot raises ArgumentNullException with that parameter's name; otherwise the answer is None exactly when no ship holds the shot, and a ship only when it is the first in fleet order that holds it |
| Fleet.DoesIntersect | Battleship.Ascii/Program.cs:428-454 | true on a shared row with column distance other than size, and on a shared column with row distance equal to size; false when neither row nor column is shared; otherwise true iff a fleet cell is among the size-1 cells after the lower endpoint |
| Fleet.HumanPlacementOutcome | Battleship.Ascii/Program.cs:408-423 | for an empty ship a placement is accepted iff size is at least 2, the ends share a column size-1 rows apart, and no fleet cell lies among the size-1 cells below the upper end; accepted gives the downward run from the start, and rejected leaves no cells |
| Fleet.HorizontalPlacementRejected | Battleship.Ascii/Program.cs:432-434 | a human placement along a row is never accepted, because the overlap check demands distance size and AddPosition demands size-1 |
| Fleet.DownwardPlacementAvoidsFleet | Battleship.Ascii/Program.cs:442-453 | an accepted placement entered from the upper end, on a free start cell, lies on free cells only |
| Fleet.UpwardPlacementOverlaps | Battleship.Ascii/Program.cs:446-449 | entered from the lower end, the checked cells are not the placed ones: with A5 taken, A3 to A1 for a ship of three is accepted as A3, A4, A5 |
| Fleet.UpwardPlacementLeavesBoard | Battleship.Ascii/Program.cs:408-423 | entered from the lower end at the bottom row, the placement leaves the board: A8 to A6 for a ship of three is accepted as A8, A9, A10 |
| Fleet.FitsOnBoard | Battleship.Ascii/Program.cs:534-549 | from a board cell, a direction that passes the far-end bound and the occupancy checks gives distinct, free board cells |
| Battle.PlacedFleetCount | Battleship.Ascii.Tests/ParsePositionTests.cs:50-59 | in a placed fleet without overlap, every occupied cell is on the board, and the distinct occupied cells number the sum of the sizes |
| Battle.OwnCellMeaning | Battleship.Ascii/Program.cs:355-361 | an own-grid record shows Ship exactly when some ship holds the cell, in the colour of the first such ship; otherwise it shows Water in Cyan |
| Battle.UnusedDirection | Battleship.Ascii/Program.cs:655-664 | fewer than four distinct recorded directions leave one unrecorded, so the redraw loop can stop |
| Battle.NewFleet | Battleship.Ascii/Program.cs:478 | the roster becomes fresh, distinct ships of the roster's sizes, with no cells and no hits |
| Battle.Game.constructor | Battleship.Ascii/Program.cs:20-34 | empty fleets, counter 0, empty guess logs and grids |
| Battle.Game.CreateMyFleet | Battleship.Ascii/Program.cs:374 | the human fleet is fresh ships carrying the roster's names, sizes and colours, with no cells and no hits; the game invariant holds |
| Battle.Game.PlaceMyShip | Battleship.Ascii/Program.cs:408-423 | the outcome and the ship's new cells are exactly HumanPlacement of the fleet's occupied cells and the ship's old cells |
| Battle.Game.TryDirection | Battleship.Ascii/Program.cs:530-650 | a direction is usable iff the far end is on the board, the start is free and every cell of the run is free; if so, the cells collected are that run |
| Battle.Game.SetShipPosition | Battleship.Ascii/Program.cs:673-681 | the cells are appended to the ship at enemyFleetCount, and the counter goes up by one |
| Battle.Game.PlaceComputerShip | Battleship.Ascii/Program.cs:510-671 | recorded directions are distinct; one to three are evaluated; every evaluated one but the last does not fit. It either commits the fitting run in the last evaluated direction to the ship at the counter and increments it, or records four, evaluates three and changes nothing |
| Battle.Game.DrawStart | Battleship.Ascii/Program.cs:495-502 | a drawn start lies in columns A..H and rows 1..7 and is not an occupied cell; no start is drawn only when every such cell is occupied |
| Battle.Game.PlaceFromRandomStart | Battleship.Ascii/Program.cs:495-504 | the drawn start is in rows 1..7 and was free; a placed ship's run begins at it; earlier ships keep their cells, occupied cells stay occupied, names, sizes, colours and hits are unchanged; the placement invariant is kept and the counter rises exactly when the ship is placed |
| Battle.Game.PlaceWithRetries | Battleship.Ascii/Program.cs:491-505 | draws starts for the ship at the counter until it is placed or the attempts run out: every start is logged for this ship, lies in rows 1..7 and is no cell of an earlier ship, which is what was occupied at the draw; a placed ship runs from one of these starts; earlier ships keep their cells and the placement invariant is kept |
| Battle.OccupiedDrawRejected | Battleship.Ascii/Program.cs:502 | a start drawn for the second ship on the first ship's cell does not satisfy the draw record |
| Battle.Game.GetComputerStartPositions | Battleship.Ascii/Program.cs:481-508 | every drawn start is logged with the ship it was drawn for, lies in rows 1..7 and is no cell of the ships before that one, which is what was occupied at its draw; each placed ship runs from a start drawn for it; the fleet never overlaps and stays on the board; on success every ship holds exactly Size board cells in a straight run; names, sizes, colours and hits are unchanged |
| Battle.Game.InitializeEnemyFleet | Battleship.Ascii/Program.cs:476-480 | a fresh enemy fleet with the roster's names, sizes and colours and no hits, never overlapping, all on the board; on success every ship is placed, the counter reaches the fleet size, and the distinct occupied cells number the sum of the sizes |
| Battle.Game.GetRandomPosition | Battleship.Ascii/Program.cs:294-310 | while fewer than 64 cells are guessed, the result is a board cell not guessed before, appended to the log; the log stays duplicate-free and on the board |
| Battle.Game.InitializeGrids | Battleship.Ascii/Program.cs:346-370 | both grids hold 64 records in board order; each own record is OwnCell of its cell, and each enemy record is Unknown in Cyan |
| Battle.SixtyFourGuesses | Battleship.Ascii.Tests/ParsePositionTests.cs:23-31 | 64 guesses from an empty log are 64 distinct cells covering the whole board |

## Left out

- Console rendering and prompting are not modelled:
  - the turn loop, the grid display, explosions, messages and the end-of-game art;
  - the re-prompt loops at Battleship.Ascii/Program.cs:390-406. `PlaceMyShip` takes any two cells.
- Telemetry, `Thread.Sleep` and the firework animation are timing and display, not rules.
- `System.Random` becomes nondeterministic choice. The "50 generated fleets differ" test is probabilistic.
- `GameController.InitializeShips` and `GameController.CheckIsHit` are not part of this model. The ship roster (`ShipKind`) is an input.
- `InitializeMyFleetStatic` is an unused alternative set-up and is left out.
- `Ship.IsPlaced`, its backing field and the `Orientation` enum are never read by the rules and are left out.
- `Enum.TryParse` also accepts numeric column text. The model accepts the letters A..H only. Upper-casing changes a..z only. A null string is refused like text of the wrong length.
- `Ship.Size` is a natural number. Negative sizes are not modelled.
- `Position` is a value, compared structurally. The sharing of `Position` objects between records is not captured.
- Grid.UpdateGrid: returns the updated list of records instead of changing a shared record object in place.
- Battle.Game.PlaceWithRetries: the game draws starts for one ship without bound. The model stops after `maxAttempts` draws and reports that the ship was not placed.
- Battle.Game.GetComputerStartPositions: the game retries a ship's placement without bound. The model stops after `maxAttempts` failed starts for one ship and reports failure, so success is not guaranteed.
- Battle.Game.PlaceFromRandomStart: when no free start cell is left the game would draw forever. The model reports that no start was drawn.
- Battle.Game.GetRandomPosition: once all 64 cells are guessed the game would draw forever. The model answers None and leaves the log unchanged.
- The game's fleets and grids (`myFleet`, `enemyFleet`, `MyState`, `EnemyState`) start as null (Battleship.Ascii/Program.cs:20-31). The model starts them as empty sequences, so the null checks that would fail before set-up are not modelled.
- `MyGuesses` is a field of `Battle.Game`, but only the turn loop adds to it, and that loop is not modelled.
