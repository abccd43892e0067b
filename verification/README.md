# Battleship game logic in Dafny

This project models the board logic of a two-player Battleship game:
- checking that a configured board size and fleet can be arranged at all;
- finding the ships on a placed board by flood fill and naming them from the catalog;
- resolving shots, detecting sunk ships and detecting a win;
- the mouse-driven placement step and its preview;
- the keyboard-driven firing turns: the terminal version with history boards, and the graphical version with a crosshair.

Boards are `array2<Mark>` over the four symbols:

| symbol | meaning | `Mark` |
|---|---|---|
| `~` | water | `Water` |
| `S` | ship | `Ship` |
| `X` | hit | `Hit` |
| `O` | miss | `Miss` |

The feasibility search works on an `array2<int>` of 0/1 cells, as the search does in the game.

Modules:
- `Grid`: cells, segments, the ship catalog, shot results and the clamped cursor step.
- `Arrangement`: the reference meaning of "the fleet can be arranged": straight segments that lie on the board and do not overlap.
- `Settings`: the ordered `ships` dictionary and the lists derived from it.
- `FileHandling`: `validate_settings`, `can_place_all_ships` and the backtracking `place_ship`.
- `BoatManagement`: the `BoatManager` class.
- `TerminalFiring`: the curses firing turn.
- `Placement`: the pygame placement phase and the terminal turn loop of `start_game`.
- `FiringPhase`: the pygame firing phase.

Interactive input is a parameter throughout:
- key streams for the terminal;
- frames of events for pygame.

When the input runs out before the loop would end, the model reports that: as `OutOfKeys` or `TurnPending` for the terminal, and as the `pending` flag of `RunFiringPhase` for the pygame firing phase.

## Model

| member | source | states |
|---|---|---|
| Grid.Opponent | modules/boat_management.py:128 | The other player is different, and the two together are exactly {1, 2}. |
| Grid.CreateEmptyBoard | modules/placement.py:10-11 | It returns a fresh board of exactly rows x cols cells, every one water. The same function serves `_empty_board` (modules/boat_management.py:30-31). |
| Grid.Rotate | modules/placement.py:103-104 | The R key always changes the orientation, H to V and V to H. |
| Grid.ShipLength | modules/file_handling.py:9-15 | A known name's length is the catalog entry's length, and it lies between 2 and 5. |
| Grid.CatalogEntry | modules/boat_management.py:6-12 | Every catalog entry is a known name, and ShipLength gives that entry's length. |
| Grid.CoversCellAt | modules/placement.py:72-74 | A segment covers a cell exactly when the cell is one of its cells (row, col+i) or (row+i, col) with i < len. |
| Grid.MoveCursor | firing.py:68-75 | From a cell on the board, an arrow step stays on the board. It moves to the neighbouring cell when that cell is on the board, and stays put at an edge. |
| Arrangement.FitsIffPlaced | modules/file_handling.py:99-122 | Placing segments one after another into the free cells succeeds exactly when each segment lies on the board inside the free cells and no two segments overlap. |
| Arrangement.ArrangeFirst | modules/file_handling.py:103-108 | If the first ship is put on free cells and the remaining ships can be arranged in what is left, then the whole list can be arranged. |
| Arrangement.ArrangeSplit | modules/file_handling.py:99-124 | Any arrangement of a non-empty list starts with some segment for the first ship that lies on the board inside the free cells, and the rest can be arranged in what is left. |
| Arrangement.Insert | modules/file_handling.py:86 | Inserting adds exactly the element to the multiset and keeps a descending list descending. |
| Arrangement.SortDesc | modules/file_handling.py:86 | `sorted(..., reverse=True)` returns a permutation of its input in descending order. |
| Arrangement.DescendingUnique | modules/file_handling.py:86 | Two descending lists with the same elements are equal, so the sort result is determined by the multiset of lengths. |
| Arrangement.ArrangeableIffSorted | modules/file_handling.py:86-88 | Whether a fleet can be arranged in any order is the same as whether the sorted list can be arranged in that order. |
| Arrangement.FitsArea | modules/file_handling.py:49-56 | The lengths of segments that fit add up to at most the number of free cells. |
| Arrangement.AreaBound | modules/file_handling.py:49-56 | An arrangeable fleet of non-negative lengths needs at most rows * cols cells. |
| Arrangement.LengthBound | modules/file_handling.py:59-65 | In an arrangeable fleet, no ship is longer than max(rows, cols). |
| Arrangement.CellsCard | modules/placement.py:72-78 | A segment of length n covers exactly n cells. |
| Settings.CountOf | modules/file_handling.py:61 | `ship_counts.get(name, 0)` is 0 for an absent name. For a dictionary with distinct keys, it is the count stored under the name. |
| Settings.Repeat | modules/file_handling.py:70 | `[x] * n` has max(n, 0) elements, all equal to x. |
| Settings.ShipListCounts | modules/placement.py:24-27 | The flattened ship list holds each name exactly max(count, 0) times. |
| Settings.RepeatCount | modules/placement.py:26-27 | The repeated list holds x max(n, 0) times and holds no other value. |
| Settings.FleetLengthsOfShipList | modules/file_handling.py:68-70 | The lengths handed to the search are, position by position, the catalog lengths of the placement list. |
| Settings.AreaRequired | modules/file_handling.py:49 | `area_required` is at most the total length of the ships handed to the search. A negative count lowers the area but adds no ship. The two are equal when no count is negative. |
| Settings.FleetLengthsFrom | modules/file_handling.py:68-70 | Every searched length is the catalog length of a ship whose count is positive. |
| Settings.FleetLengthsHas | modules/file_handling.py:68-70 | Every ship whose count is positive contributes its catalog length to the searched list. |
| Settings.SumRepeat | modules/file_handling.py:49 | n copies of x add up to x * max(n, 0). |
| FileHandling.Free | modules/file_handling.py:103 | The free cells are exactly the cells of the grid that hold 0. |
| FileHandling.Vacant | modules/file_handling.py:103-114 | The source's test, `c + len <= cols` with every covered cell 0 (and the vertical counterpart), holds exactly when the segment lies on the board and covers only free cells. |
| FileHandling.Paint | modules/file_handling.py:104-122 | Exactly the segment's cells get the value. Every other cell keeps its old value. |
| FileHandling.PlaceShip | modules/file_handling.py:91-124 | The search succeeds exactly when the ships from `index` on can be arranged in the grid's free cells. On failure the grid is restored exactly. On success cells only change from 0 to 1. |
| FileHandling.TryAt | modules/file_handling.py:103-122 | One orientation at one origin: it succeeds exactly when the segment is on the board, over free cells only, and the remaining ships can be arranged in the cells it leaves free. On success the segment's cells are 1 and only 0 cells changed; on failure the grid is restored. |
| FileHandling.CanPlaceAllShips | modules/file_handling.py:81-88 | The result is true exactly when the fleet can be arranged on an empty rows x cols board. |
| FileHandling.UnknownName | modules/file_handling.py:44-46 | There is no answer exactly when every name of the settings is in the catalog. Otherwise the answer is the first unknown name, in dictionary order. |
| FileHandling.TooLongShip | modules/file_handling.py:59-65 | There is no answer exactly when no ship asked for is longer than max(rows, cols). Otherwise the answer is the first such catalog entry, in declaration order, with its length. |
| FileHandling.LengthsList | modules/file_handling.py:68-70 | The list built for the search is FleetLengths of the settings, whose contents FleetLengthsFrom, FleetLengthsHas and FleetLengthsOfShipList state. |
| FileHandling.ValidateSettings | modules/file_handling.py:42-75 | The settings are accepted exactly when every name is known and the fleet can be arranged. Otherwise the first failing check is reported, in the source's order (unknown name, area, too-long ship, no arrangement), with that check's own data. |
| FileHandling.FitFleetBounds | modules/file_handling.py:49-65 | The area check and the too-long check never reject a fleet that can be arranged. They are shortcuts of the search. |
| FileHandling.CatalogEntryFits | modules/file_handling.py:59-65 | A ship with a positive count in an arrangeable fleet is no longer than max(rows, cols). |
| FileHandling.FleetFitsArea | modules/file_handling.py:49-56 | The area the settings ask for is at most rows * cols when the fleet can be arranged. |
| BoatManagement.Neighbours | modules/boat_management.py:72 | The pushed cells are exactly the four orthogonal neighbours. |
| BoatManagement.Collect | modules/boat_management.py:68-72 | Taking an unvisited "S" cell from the stack marks it visited, keeps the flood-fill invariant, and shrinks the set of unvisited "S" cells. |
| BoatManagement.FillTake | modules/boat_management.py:68-72 | Collecting a cell and pushing its neighbours keeps the flood-fill invariant. |
| BoatManagement.FillSkip | modules/boat_management.py:66-68 | Dropping a popped cell that is off the board, not "S", or already visited keeps the flood-fill invariant. |
| BoatManagement.FloodFillShip | modules/boat_management.py:59-73 | The collected cells are distinct and connected, are "S" cells, and were not visited before. They start with the start cell when that cell is an unvisited "S", and are empty otherwise. Every "S" neighbour of a collected cell is collected or was visited before. `visited` gains exactly the collected cells. |
| BoatManagement.Names | modules/boat_management.py:53 | The set of recorded names: every recorded name is in it, and each member is some entry's name. |
| BoatManagement.FirstFreeFrom | modules/boat_management.py:50-55 | From catalog position k on, there is no name exactly when every entry of the length is taken. Otherwise the name is the first free entry of that length from k on. |
| BoatManagement.FirstFreeName | modules/boat_management.py:50-55 | The name is the first catalog entry, in declaration order, with the length and not taken. There is no name exactly when every entry of that length is taken. |
| BoatManagement.ChooseName | modules/boat_management.py:50-55 | The chosen name is the first catalog entry, in declaration order, with the component's length and not yet recorded. There is no name exactly when no such entry exists. The loop's answer is FirstFreeName's. |
| BoatManagement.ThreeCellNames | modules/boat_management.py:50-55 | The first three-cell ship is named "cruiser", and the next one, with "cruiser" taken, "submarine". |
| BoatManagement.TwoCellNames | modules/boat_management.py:50-55 | The first two-cell ship is named "destroyer". With "destroyer" taken, no name is left. |
| BoatManagement.LabelShips | modules/boat_management.py:44-57 | The components found are listed in the order of the row-major scan. Each starts with its row-major least cell, and these first cells strictly increase. The components are pairwise disjoint and closed under "S" neighbours, and every "S" cell lies in one of them. The recorded and dropped ships are what Labelled makes of that list: each component in turn gets the first catalog name of its length not recorded before it, or is dropped when there is none. Recorded names are distinct catalog names whose length equals the component's size. |
| BoatManagement.LabelledTwoThrees | modules/boat_management.py:44-57 | Two three-cell ships met in this order are recorded as "cruiser" and then "submarine", and none is dropped. |
| BoatManagement.LabelledTwoTwos | modules/boat_management.py:44-57 | Of two two-cell ships met in this order, the first is recorded as "destroyer" and the second is dropped. |
| BoatManagement.RowScanOrder | modules/boat_management.py:45-47 | On the one-row boards "SSS~SSS" and "SS~SS", listing the left ship first is in scan order, and listing the right ship first is not. |
| BoatManagement.ScanRow | modules/boat_management.py:45-57 | After row r, every "S" cell of rows 0..r is visited, every ship found starts in rows 0..r, and the found list still labels to the recorded and dropped ships. |
| BoatManagement.ScanCell | modules/boat_management.py:46-57 | After cell (r, c), every "S" cell up to (r, c) in row-major order is visited, every ship found starts at or before (r, c), and the scan invariant holds. |
| BoatManagement.NewShipAt | modules/boat_management.py:47-48 | The flood fill from an unvisited "S" cell (r, c) gives a new component that starts at (r, c). Every one of its other cells comes after (r, c) in row-major order. It shares no cell with a recorded or a dropped ship, and `visited` gains exactly its cells. |
| BoatManagement.FoundSnoc | modules/boat_management.py:47-57 | Appending a new component keeps the scan invariant, whether the component is named with the first free name or dropped. |
| BoatManagement.ScanOrderSnoc | modules/boat_management.py:45-47 | A component whose first cell is its least cell and comes after every earlier first cell extends a scan-ordered list. |
| BoatManagement.LabelShipAt | modules/boat_management.py:47-57 | One scan position: after it, (r, c) is visited, and the fleet and the dropped list still describe exactly the visited "S" cells. Earlier visits are kept. The new component is appended to the found list with (r, c) as its first cell. |
| BoatManagement.NewComponent | modules/boat_management.py:47-48 | A flood fill from an "S" cell outside all earlier components is a new component, disjoint from all of them. |
| BoatManagement.RecordShip | modules/boat_management.py:56-57 | Recording a named component keeps the scan invariant. |
| BoatManagement.DropShip | modules/boat_management.py:56 | Dropping an unnamed component keeps the scan invariant. |
| BoatManagement.FleetNames | modules/boat_management.py:53-57 | The names in the fleet are pairwise distinct. |
| BoatManagement.SunkShipFrom | modules/boat_management.py:106-115 | It returns no name exactly when no recorded ship contains the cell with every cell "X". Otherwise it returns the first such ship in recording order. |
| BoatManagement.NoShipLeft | modules/boat_management.py:127 | The result is true exactly when no cell of the board is "S". |
| BoatManagement.Strike | modules/boat_management.py:93-103 | Both boards get the mark at (row, col) and no other cell changes. A fresh "X" on a ship or a fresh "O" elsewhere keeps the two boards in agreement. |
| BoatManagement.Shoot | modules/boat_management.py:86-104 | A cell already "X"/"O" on the hit board is a repeat and changes nothing. Otherwise both boards get "X" on "S" and "O" elsewhere, and no other cell changes. A hit reports sunk exactly when some recorded ship through the cell is all "X", and then names the first such ship. No new "S" appears, and the boards stay in agreement. |
| BoatManagement.BoatManager.constructor | modules/boat_management.py:15-28 | There are four fresh rows x cols boards of water, no recorded ships and no sunk ships. |
| BoatManagement.BoatManager.SetPlayerShips | modules/boat_management.py:36-57 | The player's board is replaced and their sunk list emptied. Their ships are relabelled as LabelShips states: some scan-ordered list of the board's components labels to exactly the recorded fleet. The other player's board, ships and sunk list and both hit boards are unchanged. |
| BoatManagement.BoatManager.Adopt | modules/boat_management.py:40-42 | The player's board, ships and sunk list take their new values. Everything of the other player and both hit boards are unchanged. |
| BoatManagement.BoatManager.FireAt | modules/boat_management.py:78-104 | Everything Shoot states, on the defender's board and the attacker's hit board. The sunk name is appended to the defender's sunk list exactly on a sunk result. The attacker's own sunk list is untouched. |
| BoatManagement.BoatManager.CheckWin | modules/boat_management.py:120-129 | Player 2 wins exactly when board 1 has no "S". Otherwise player 1 wins exactly when board 2 has none. Otherwise there is no winner. |
| TerminalFiring.FirstStop | firing.py:62-77 | It gives the first position holding Enter or q, or the end of the keys when there is none. |
| TerminalFiring.Aimed | firing.py:59-75 | Starting on the board, the cursor stays on the board whatever keys follow. |
| TerminalFiring.ChooseTarget | firing.py:46-77 | The cursor starts at (0, 0). At the first Enter the result is the cell reached by the arrow keys so far. At the first q it is a quit. The position after the deciding key is returned, and the chosen cell is on the board. |
| TerminalFiring.ApplyShot | firing.py:79-104 | A history cell "X"/"O" is a repeat and changes nothing. A ship cell becomes "X" on both boards. Anything else is a miss: the history gets "O", and the enemy cell gets "O" only if it was water. No other cell changes, and the result is never sunk. |
| TerminalFiring.FiringPhaseForTurn | firing.py:106-143 | A turn ends only with a hit, a miss or a quit, and repeats are prompted again. A hit or miss reports the cell it struck, which was not fired at before, and only that cell changes on either board. A quit changes nothing. |
| Placement.ExpandShipList | modules/placement.py:24-27 | The flattened list is each name repeated count times, in dictionary order. |
| Placement.Preview | modules/placement.py:69-78 | The preview cells are (row, col+i) for H and (row+i, col) for V, in order. The preview is valid exactly when the ship lies on the board and covers no "S". A valid preview has all len cells. An invalid one stops at the first cell past an edge or on "S". |
| Placement.Commit | modules/placement.py:107-108 | Exactly the preview cells become "S". Every other cell keeps its value. |
| Placement.PlacedCells | modules/placement.py:75-109 | Placing a segment on cells without "S" adds exactly its length to the number of "S" cells. |
| Placement.Click | modules/placement.py:105-109 | A valid click sets exactly the covered cells to "S", advances the ship index by one, and adds the ship's length to the "S" count. Any other click changes nothing. The new "S" cells and index are Place's. |
| Placement.PlaceableAmong | modules/placement.py:69-78 | A placement is valid exactly when the segment lies on the board and covers none of the board's "S" cells. |
| Placement.Turned | modules/placement.py:102-104 | The orientation is unchanged exactly when R was pressed an even number of times. |
| Placement.HandleQuit | modules/placement.py:97-101 | Handling a frame ends with the window closed exactly when it was closed already or the frame holds a close event. |
| Placement.HandleTurns | modules/placement.py:102-104 | The orientation at the end of a frame is the start one turned once per R pressed before the first close event. |
| Placement.HandlePlaced | modules/placement.py:105-109 | Over a frame, the ship index only advances and stays within the ship list, the "S" cells only grow, and their number stays equal to the lengths of the ships placed. |
| Placement.HandleFrame | modules/placement.py:97-109 | The new "S" cells, ship index, orientation and quit flag are HandleAll's for the frame's events, with each click judged against the current board. Quit is true exactly when the frame holds a close event. The orientation is turned once per R before it. The number of "S" cells stays equal to the lengths of the ships placed so far. Existing "S" cells stay, and no other symbol appears. |
| Placement.PhaseOutcome | modules/placement.py:48-109 | Over the frames, the ships placed stay within the ship list and the "S" cells number their lengths. The window ends closed only if some frame holds a close event. While a ship is left unplaced, it ends closed exactly when some frame holds one. |
| Placement.PlacementPhase | modules/placement.py:13-111 | A fresh rows x cols board holds only water and "S". Its "S" cells, the ships placed and the exit flag are what Phase makes of the frames. `exited` holds only if some frame closes the window, and exactly then while a ship is left unplaced. The "S" cells number exactly the lengths of the ships placed, at most the whole ship list. |
| Placement.HandleFrameAsWritten | modules/placement.py:69-109 | As the source runs it, every click of a frame commits the one preview computed before the events. The ship index advances once per click when that preview was valid. Quit is true exactly when the frame holds a close event, and the orientation is turned once per R before it. |
| Placement.EventsAsWritten | modules/placement.py:97-109 | Every click before the first close event commits the same cells when the preview was valid, and the index advances once per such click. |
| Placement.StaleDoubleClick | modules/placement.py:98-109 | Two clicks in one frame on an empty 1 x 5 board count two destroyers as placed, but leave only two "S" cells instead of four. |
| Placement.FiringLoop | modules/placement.py:127-136 | Turn i is player 1 against board 2 when i is even, and player 2 against board 1 when i is odd. Every finished turn counts one more turn. A board cell changes only where the opposing player fired in a logged turn. |
| Placement.ShotBySnoc | modules/placement.py:136 | Logging one more turn adds exactly that turn's shot to the log. |
| FiringPhase.Step | modules/firing.py:39-65 | Arrows move the crosshair with clamping. After "hit" or "sunk:..." the same player keeps the turn, the check_win answer becomes the winner, and the loop stops exactly when there is one. "miss" swaps the players. Any other result or event changes nothing. Closing the window ends everything. The players stay a permutation of {1, 2} and the crosshair stays on the board. |
| FiringPhase.StepsSane | modules/firing.py:39-65 | Over a frame's events, the players stay a permutation of {1, 2} and the crosshair stays on the board. |
| FiringPhase.PlaySane | modules/firing.py:22-65 | The same holds over any number of frames. |
| FiringPhase.PhaseSane | modules/firing.py:11-65 | From the start (player 1 against player 2, crosshair at (0, 0)), on any board with at least one cell, the players are always 1 and 2 in some order and the crosshair is always on the board. |
| FiringPhase.StepsExited | modules/firing.py:40-42 | After the window is closed, no event changes anything. |
| FiringPhase.StepsAppend | modules/firing.py:39 | Handling a frame's events in two parts is the same as handling them all. |
| FiringPhase.Announce | modules/firing.py:69 | The result is "Player 1" or "Player 2" (the digit is the winner) when there is a winner, and nothing otherwise. |
| FiringPhase.RunFiringPhase | modules/firing.py:4-69 | The loop variables follow Step event by event. The loop stops when `running` is false before a frame. It returns the announcement of the final winner, or reports that the window was closed. `pending` is true exactly when the frames ran out while `running` was still true, which tells that case apart from a finished game whose winner a later hit reset to none. |

## Left out

- `load_settings` (modules/file_handling.py:18-38) is not modelled: it is file and JSON input. Rows, columns and the ordered counts are parameters.
- modules/menu.py, modules/draw.py, main.py and turn_order.py are not part of this model. They are rendering, menus, wiring and a random choice of who starts.
- These are left out: drawing, fonts, images, `clock.tick`, `pygame.time.wait`, the splash screens, `curses` set-up, and the messages shown after a shot.
- The mouse-to-cell pixel arithmetic is left out (modules/placement.py:33-40, 54-56). A frame carries the board cell under the mouse.
- `draw.animate_firing_shot` is not part of this model. A Space event carries the result it reports and the answer `check_win` gives after it, so the graphical phase is not tied to a `BoatManager` state.
- `validate_settings` raises `ValueError`. The model returns `Rejected` with the failing check's data. The message text is not modelled.
- With zero rows and a non-empty ship list, `place_ship` raises `IndexError` at `grid[0]`. The model finds no cell to try and rejects the settings with `NoArrangement`.
- Rows and columns are natural numbers. Negative board sizes are not modelled.
- Python's negative index wrap is not modelled. `FireAt`, `Shoot` and `ApplyShot` require the target cell to be on the board.
- `ChooseTarget` and `FiringPhaseForTurn` require at least one row and one column. With zero rows, `len(history_board[0])` raises `IndexError` (firing.py:54). With zero columns, an immediate Enter returns (0, 0) and `history_board[row][col]` raises `IndexError` in `apply_shot_and_update_history` (firing.py:91).
- After each terminal shot, the acknowledgement key (firing.py:139-140) is consumed when one is left. When none is left, the turn still returns its result.
- `PlacementPhase` requires every configured name to be known. The source raises `KeyError` (modules/placement.py:52) only for an unknown name whose count is positive, since names with a count of zero or less never enter the ship list (modules/placement.py:26-27). The requirement rests on `validate_settings` rejecting every unknown name, whatever its count, before placement starts (modules/file_handling.py:43-45).
- `FloodFillShip` and `LabelShips` take the dimensions from the board array rather than from `self.rows`/`self.cols`. `SetPlayerShips` requires the board to have those dimensions.
- BoatManagement.BoatManager.SetPlayerShips requires the new board to be distinct from both hit boards and from the opponent's board. Python would allow such sharing, but then the four boards would no longer be independent.
- `player_ship_coords[player]` is a dictionary. It is modelled as a sequence of (name, cells) pairs in insertion order. Names are never re-inserted (FleetNames), so iterating the sequence follows the dictionary's order.
- A stricter labelling would reject components without a free catalog name. `set_player_ships` drops them, and the model follows the code: such components end up in the ghost `dropped` list.
- `BoatManager` keeps no live-ship count, as in the code. `ships` is stored and never read.
- `valid` and `preview_cells` may be stale or undefined when the mouse is off the board (modules/placement.py:69, 106). In both frame models a click with the mouse off the board places nothing.
- Two things happen because every event of a frame is still handled after `running` becomes false, and the model keeps both: a later miss in the same frame can still swap the players, and a later hit can overwrite `winner`.
- Closing the window calls `exit()`. The model reports `exited` and returns no winner.
- Placement.PlacementPhase runs the corrected frame handler HandleFrame, not the frame as written (see Findings). HandleFrameAsWritten and EventsAsWritten model the frame as written.
- Placement.PlacementPhase states which cells the frames placed through Phase and HandleAll. Click states it for a single click.
- Placement.FiringLoop states the alternation, the turn count and where each board may change. It does not state the result of each turn; FiringPhaseForTurn states that.
- TerminalFiring.FiringPhaseForTurn does not state which keys led to the cell it fired at. ChooseTarget states that for a single prompt.

## Findings

| source | as written | input that shows it | evidently intended | confidence | as-written member | corrected member |
|---|---|---|---|---|---|---|
| modules/placement.py:98-109 | The frame's preview is computed once, before its events (lines 69-78). Every left click in that frame's event batch commits the same preview and advances `ship_index`. | A 1 x 5 board, two destroyers to place, the mouse on (0, 0), and two left clicks delivered in one frame. Both destroyers count as placed, but the board has only 2 "S" cells instead of 4. | Each click places the current ship after checking it against the current board and orientation. The number of "S" cells then equals the lengths placed. | not executed; needs two clicks within one frame | Placement.HandleFrameAsWritten, Placement.StaleDoubleClick | Placement.HandleFrame, Placement.PlacementPhase |
