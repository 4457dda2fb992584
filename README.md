# Minesweeper game engine in Dafny

This project models the game engine of an Android Minesweeper app: the
`MinesweeperGame` class and its `Cell` record. A game owns a `rows` x `columns`
grid of cells. Each cell knows whether it is a mine, whether it is revealed or
flagged, and how many mines surround it. Building a game places `mineCount`
mines by drawing random positions until that many distinct cells are mined, and
then counts every safe cell's mined neighbours. The player plays with two
moves. `revealCell` opens a cell: a mine ends the game, and a safe cell with no
mine around it opens its neighbours recursively. `toggleFlag` puts a flag on a
covered cell or takes it off. After every reveal that gets past the guard, the
game checks for a win.

The model is imperative, like the source:

- `MinesweeperGame` is a class. Its grid is an `array2<Cell>`, and
  `isGameOver` and `isGameWon` are mutable fields.
- Every operation is a method that updates these in place. Its `modifies`
  clause names exactly what it may change.
- Three ghost fields describe the board abstractly: the sets of mined,
  revealed and flagged positions.
- The object invariant `Valid` states that every grid cell is exactly the one
  those sets describe. It:
  - gives every safe cell the count of mines around it, and every mine cell 0;
  - keeps the mine count exact;
  - keeps revealed and flagged cells apart;
  - makes `isGameOver` hold exactly when a mine has been revealed;
  - makes `isGameWon` hold only once every safe cell is revealed.

The cascade of reveals is specified without reference to the order of the
recursion. Module `FloodFill` defines when a sequence of cells is a complete
flood fill from a start cell over the cells it may open. `RevealCell` returns,
as a ghost result, the cells it revealed in order. It is proved to be such a
flood fill, and `FloodUnique` shows that any two flood fills from the same cell
open the same set.

Files:

| file | contents |
|---|---|
| `grid.dfy` | positions, bounds, the eight-cell ring, neighbourhoods, board size |
| `layout.dfy` | neighbour mine counts, the zero cells that expand, the placement bound, the mine-free cascade |
| `flood_fill.dfy` | the order-free description of what one reveal opens |
| `minesweeper.dfy` | the `Cell` datatype and the `MinesweeperGame` class |

## Model

| member | source | states |
|---|---|---|
| Minesweeper.Cell | app/src/main/java/me/diegomelo/minesweeper/MainActivity.kt:398-403 | A cell records whether it is a mine, whether it is revealed, whether it is flagged, and how many mines surround it. |
| Minesweeper.Fresh | app/src/main/java/me/diegomelo/minesweeper/MainActivity.kt:398-403 | The default cell: no mine, not revealed, not flagged, count 0. |
| Minesweeper.FreshOnEmptyBoard | app/src/main/java/me/diegomelo/minesweeper/MainActivity.kt:322 | The default cell the grid starts with is exactly the cell that a board with no mines, reveals or flags describes. |
| Minesweeper.MinesweeperGame.constructor | app/src/main/java/me/diegomelo/minesweeper/MainActivity.kt:321-329 | A new game over the given draws has the requested dimensions and nothing revealed or flagged; neither flag is set. Its mines are exactly the distinct cells of the shortest prefix of the draws that holds `mineCount` distinct cells, as the placement loop draws them. It satisfies the invariant, so it holds exactly `mineCount` mines (none when `mineCount` is not positive) and every safe cell carries its neighbour count. |
| Minesweeper.MinesweeperGame.PlaceMines | app/src/main/java/me/diegomelo/minesweeper/MainActivity.kt:331-341 | Placement consumes a prefix of the draws. The mines are exactly the distinct cells of that prefix, and there are exactly `mineCount` of them (none when `mineCount` is not positive, since the loop then never runs). The prefix is the shortest one that holds enough distinct cells, so a draw landing on a mine only costs a draw. Only `isMine` changes on the grid. |
| Layout.PlacementNeedsRoom | app/src/main/java/me/diegomelo/minesweeper/MainActivity.kt:333-339 | The placement loop can only finish when `mineCount` is at most `rows * columns`. |
| Grid.CellsCard | app/src/main/java/me/diegomelo/minesweeper/MainActivity.kt:322 | The board has exactly `rows * columns` positions. |
| Minesweeper.MinesweeperGame.CalculateAdjacentMines | app/src/main/java/me/diegomelo/minesweeper/MainActivity.kt:343-352 | Afterwards every safe cell holds the number of mines among its in-bounds neighbours. Mine cells are left as they were, and no other field changes. |
| Minesweeper.MinesweeperGame.CountAdjacent | app/src/main/java/me/diegomelo/minesweeper/MainActivity.kt:347-348 | Counting the mined cells of the neighbour list gives the number of mines around the cell. |
| Minesweeper.MinesweeperGame.CountMines | app/src/main/java/me/diegomelo/minesweeper/MainActivity.kt:348 | The count over a list is at most its length. For a list without repeats, it is the number of distinct mined cells in it. |
| Minesweeper.MinesweeperGame.AdjacentCells | app/src/main/java/me/diegomelo/minesweeper/MainActivity.kt:354-364 | The list holds exactly the in-bounds positions adjacent to the cell. It excludes the cell itself, does not wrap around, and is in strictly increasing row-major order, so it has no repeats. |
| Grid.RingAdjacent | app/src/main/java/me/diegomelo/minesweeper/MainActivity.kt:356-358 | The positions the two offset loops visit, minus the centre, are exactly the positions adjacent to the cell. |
| Grid.NeighboursAtMost8 | app/src/main/java/me/diegomelo/minesweeper/MainActivity.kt:354-364 | A cell has at most eight in-bounds neighbours. |
| Layout.MinesAround | app/src/main/java/me/diegomelo/minesweeper/MainActivity.kt:347-348 | A neighbour count lies in [0, 8]. |
| Layout.MinesAroundCard | app/src/main/java/me/diegomelo/minesweeper/MainActivity.kt:347-348 | Counting around the ring equals the number of mined in-bounds neighbours. |
| Layout.MinesInCard | app/src/main/java/me/diegomelo/minesweeper/MainActivity.kt:348 | Counting along a sequence without repeats equals the size of its set of mined, in-bounds cells. |
| Layout.NoMinesAround | app/src/main/java/me/diegomelo/minesweeper/MainActivity.kt:373 | A count of 0 holds exactly when no neighbour is a mine. |
| Minesweeper.MinesweeperGame.ZeroOnGrid | app/src/main/java/me/diegomelo/minesweeper/MainActivity.kt:371-373 | On a valid game, the grid test that starts the cascade (not a mine, count 0) holds exactly for the safe cells with no mined neighbour. |
| Minesweeper.MinesweeperGame.Blocked | app/src/main/java/me/diegomelo/minesweeper/MainActivity.kt:368 | The guard of a reveal as the game evaluates it on the grid: the cell is revealed or flagged, or the game is lost. |
| Minesweeper.MinesweeperGame.BlockedIsRefused | app/src/main/java/me/diegomelo/minesweeper/MainActivity.kt:368 | On a valid game, the grid guard refuses a reveal exactly when the cell is in the revealed set or the flagged set, or a mine has been revealed. |
| Minesweeper.MinesweeperGame.RevealCell | app/src/main/java/me/diegomelo/minesweeper/MainActivity.kt:366-382 | See the list below the table. |
| Minesweeper.MinesweeperGame.RevealOpen | app/src/main/java/me/diegomelo/minesweeper/MainActivity.kt:370-379 | Revealing a covered, unflagged cell of a game still on reveals a complete flood fill from it and nothing else. No cell after the first is a mine. The game ends exactly when the cell is a mine. The win flag is never cleared. |
| Minesweeper.MinesweeperGame.Uncover | app/src/main/java/me/diegomelo/minesweeper/MainActivity.kt:370-372 | The cell becomes revealed and nothing else is revealed. It leaves the set of openable cells. The game ends exactly when it is a mine. |
| Minesweeper.MinesweeperGame.RevealAdjacent | app/src/main/java/me/diegomelo/minesweeper/MainActivity.kt:373-379 | Revealing the neighbours of a just-revealed zero cell one after the other completes a flood fill from that cell over what was openable before it. The game is still on afterwards. |
| Minesweeper.MinesweeperGame.RevealNeighbour | app/src/main/java/me/diegomelo/minesweeper/MainActivity.kt:374-378 | One neighbour's reveal keeps the cells revealed so far a flood fill that is closed everywhere except at the start cell. It adds the neighbour whenever the neighbour was openable. It never ends the game, because a zero cell has no mined neighbour. |
| FloodFill.Lone | app/src/main/java/me/diegomelo/minesweeper/MainActivity.kt:370-373 | A cell that does not expand is a complete flood fill on its own. |
| FloodFill.SingleUnlessZero | app/src/main/java/me/diegomelo/minesweeper/MainActivity.kt:371-373 | A flood fill from a cell that does not expand contains only that cell. |
| FloodFill.Step | app/src/main/java/me/diegomelo/minesweeper/MainActivity.kt:374-378 | Appending what one neighbour's reveal opened, which is nothing if the neighbour was blocked, keeps the sequence spreading and closed beyond the start. It covers the neighbour if the neighbour was openable. |
| FloodFill.Extend | app/src/main/java/me/diegomelo/minesweeper/MainActivity.kt:374-378 | Appending a neighbour's complete flood fill over the still-openable cells keeps the accumulated sequence spreading and closed beyond the start. |
| FloodFill.CloseAt | app/src/main/java/me/diegomelo/minesweeper/MainActivity.kt:374-378 | Once every openable neighbour of the start cell is covered, the sequence is closed at the start as well. |
| Layout.NoMineInCascade | app/src/main/java/me/diegomelo/minesweeper/MainActivity.kt:373-378 | Every cell of a flood fill after the first is a neighbour of a zero cell, so it is not a mine. |
| FloodFill.Covered | app/src/main/java/me/diegomelo/minesweeper/MainActivity.kt:374-378 | Every cell of a spreading sequence lies in any complete flood fill from the same cell. |
| FloodFill.FloodUnique | app/src/main/java/me/diegomelo/minesweeper/MainActivity.kt:374-378 | Two complete flood fills from the same cell open the same cells, so the order in which neighbours are visited does not matter. |
| Minesweeper.MinesweeperGame.ToggleFlag | app/src/main/java/me/diegomelo/minesweeper/MainActivity.kt:384-389 | On a covered cell the flag flips; on a revealed cell nothing changes. Neither game flag matters. No other position's flag changes, and no cell's mine or count changes. The invariant keeps revealed and flagged cells apart. |
| Minesweeper.MinesweeperGame.AllClear | app/src/main/java/me/diegomelo/minesweeper/MainActivity.kt:392 | The win test as the game evaluates it on the grid: every cell is revealed or is a mine. |
| Minesweeper.MinesweeperGame.AllClearIsCleared | app/src/main/java/me/diegomelo/minesweeper/MainActivity.kt:392 | On a valid game, the grid test "every cell is revealed or a mine" holds exactly when every safe cell is revealed. |
| Minesweeper.MinesweeperGame.CheckForWin | app/src/main/java/me/diegomelo/minesweeper/MainActivity.kt:391-395 | The won flag becomes set exactly when it was set already or every safe cell is revealed. It is never cleared. |

`RevealCell` (app/src/main/java/me/diegomelo/minesweeper/MainActivity.kt:366-382) states:

- When the cell is revealed or flagged, or the game is lost, nothing changes and nothing is revealed. So a second reveal of a cell does nothing.
- Otherwise the cell becomes revealed, and the cells revealed are a complete flood fill from it over the covered, unflagged cells.
- A mine or a cell with a positive count reveals itself alone.
- No cascaded cell is a mine.
- The game ends exactly when the target is a mine.
- The won flag then says exactly whether every safe cell is revealed.
- Under all outcomes, revealed cells stay revealed, the won flag is never cleared, and no cell's mine or count changes.

The recursion terminates. The measure is the set of covered, unflagged cells, which every reveal that passes the guard shrinks.

## Left out

- The Compose user interface, the Android activities, the shake listener, the splash screen and the settings screen are not part of this model. They are presentation and device input around the engine.
- Random number generation is not modelled. The constructor and `PlaceMines` take the sequence of positions the generator would produce.
- Minesweeper.MinesweeperGame.constructor: requires that the draws contain at least `mineCount` distinct in-bounds cells. Otherwise the source's placement loop never finishes, or `Random.nextInt(0)` throws on an empty board.
- Minesweeper.MinesweeperGame.constructor: requires `rows >= 0` and `columns >= 0`. The source's allocation throws when `rows < 0`, or when `rows > 0` and `columns < 0`. With `rows == 0` and a negative `columns` the source never builds a row, so with `mineCount <= 0` it makes an empty game; the model excludes that case because its grid records `columns` as its width.
- Minesweeper.MinesweeperGame.RevealCell: requires an on-board position, where the source would throw an index exception.
- Minesweeper.MinesweeperGame.ToggleFlag: requires an on-board position, where the source would throw an index exception.
- The source finds a neighbour's coordinates by searching the grid for its `Cell` object with `indexOfFirst`/`indexOf`. The model passes the coordinates directly. Data-class equality acts as identity here, because every cell holds its own state objects, so the search finds the right cell.
- `getAdjacentCells` returns the `Cell` objects themselves, aliases of grid entries. The model returns their positions, and every read and update goes through the grid.
- The `MutableState` wrappers around `isRevealed` and `isFlagged`, and the `mutableStateOf` delegates behind `isGameOver` and `isGameWon`, become plain booleans. Compose's change notifications are not modelled.
- Minesweeper.MinesweeperGame.RevealCell: `order` is a ghost result. It records which cells one call revealed and has no counterpart in the source.
- Deep recursion may overflow the Java stack on large boards; this is not modelled.
- The win check also runs after a losing reveal, and a won game still accepts reveals, so both flags can end up set. The model keeps this behaviour and does not treat it as an error.
