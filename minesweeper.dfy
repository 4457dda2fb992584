/**
 * The game engine: a `rows` x `columns` grid of cells with hidden mines, the
 * player's reveal and flag moves, and the lost / won flags.
 */
module Minesweeper {
  import opened Grid
  import opened FloodFill
  import opened Layout

  /** One board position. */
  datatype Cell = Cell(isMine: bool, isRevealed: bool, isFlagged: bool, adjacentMines: int)

  /** The cell every grid position starts as. */
  const Fresh := Cell(false, false, false, 0)

  /**
   * The cell at `p` on a board with the given mined, revealed and flagged
   * positions: a safe cell counts the mines around it, a mine cell keeps 0.
   */
  ghost function CellAt(rows: int, columns: int, mines: set<Pos>, revealed: set<Pos>, flagged: set<Pos>, p: Pos): Cell {
    Cell(p in mines, p in revealed, p in flagged, if p in mines then 0 else MinesAround(rows, columns, mines, p))
  }

  /** `cell` at `p` once neighbour counting has visited it. */
  ghost function Counted(rows: int, columns: int, mines: set<Pos>, cell: Cell, p: Pos): Cell {
    if cell.isMine then cell else cell.(adjacentMines := MinesAround(rows, columns, mines, p))
  }

  /** The cells a reveal may still open: covered and not flagged. */
  ghost function Openable(rows: int, columns: int, revealed: set<Pos>, flagged: set<Pos>): set<Pos> {
    Cells(rows, columns) - revealed - flagged
  }

  /** A fresh cell is exactly the cell an empty board describes: no mine, nothing revealed or flagged, no mine around. */
  lemma FreshOnEmptyBoard(rows: int, columns: int, p: Pos)
    ensures CellAt(rows, columns, {}, {}, {}, p) == Fresh
  {
    MinesAroundCard(rows, columns, {}, p);
    assert Neighbours(rows, columns, p) * {} == {};
  }

  /** Every safe cell has been revealed. */
  ghost predicate Cleared(rows: int, columns: int, mines: set<Pos>, revealed: set<Pos>) {
    Cells(rows, columns) - mines <= revealed
  }

  class MinesweeperGame {
    const rows: int
    const columns: int
    const mineCount: int
    const grid: array2<Cell>
    var isGameOver: bool
    var isGameWon: bool
    /** The positions holding a mine; fixed once placement is done. */
    ghost var mines: set<Pos>
    /** The positions revealed so far. */
    ghost var revealed: set<Pos>
    /** The positions carrying a flag. */
    ghost var flagged: set<Pos>

    predicate Shaped() {
      grid.Length0 == rows && grid.Length1 == columns
    }

    /**
     * The object invariant: the grid has the game's dimensions, the position
     * sets are consistent, every cell is the one they describe, and the two
     * flags agree with them.
     */
    ghost predicate Valid()
      reads this, grid
    {
      // Bound to a name to keep verification fast: the verifier then treats each
      // use as one fact instead of splitting it into its conjuncts every time.
      var ok := Shaped() && Placed() && Drawn() && Status(); ok
    }

    /** All positions lie on the board, there are as many mines as requested, and no revealed cell carries a flag. */
    ghost predicate Placed()
      reads this
    {
      && mines <= Cells(rows, columns)
      && |mines| == (if mineCount > 0 then mineCount else 0)
      && revealed <= Cells(rows, columns) && flagged <= Cells(rows, columns)
      && revealed !! flagged
    }

    /** Every cell of the grid is the one the three position sets describe. */
    ghost predicate Drawn()
      reads this, grid
      requires Shaped()
    {
      forall r, c {:trigger grid[r, c]} | 0 <= r < rows && 0 <= c < columns ::
        grid[r, c] == CellAt(rows, columns, mines, revealed, flagged, (r, c))
    }

    /** The game is lost exactly when a mine is revealed, and won only once every safe cell is revealed. */
    ghost predicate Status()
      reads this
    {
      && (isGameOver <==> !(revealed !! mines))
      && (isGameWon ==> Cleared(rows, columns, mines, revealed))
    }

    /** The win condition as the game evaluates it on the grid: every cell is revealed or is a mine. */
    predicate AllClear()
      reads grid
      requires Shaped()
    {
      forall r, c {:trigger grid[r, c]} | 0 <= r < rows && 0 <= c < columns :: grid[r, c].isRevealed || grid[r, c].isMine
    }

    /** On a valid game, the grid test that starts the cascade picks out exactly the zero cells. */
    lemma ZeroOnGrid(r: int, c: int)
      requires Valid()
      requires InBounds(rows, columns, (r, c))
      ensures (r, c) in ZeroCells(rows, columns, mines) <==> !grid[r, c].isMine && grid[r, c].adjacentMines == 0
    {
      assert grid[r, c] == CellAt(rows, columns, mines, revealed, flagged, (r, c));
      ZeroCell(rows, columns, mines, (r, c));
    }

    /** A reveal of (row, column) is refused, as the game tests it on the grid. */
    predicate Blocked(row: int, column: int)
      reads this, grid
      requires Shaped() && InBounds(rows, columns, (row, column))
    {
      grid[row, column].isRevealed || grid[row, column].isFlagged || isGameOver
    }

    /** On a valid game, the grid test refuses a reveal exactly when the cell is revealed or flagged or the game is lost. */
    lemma BlockedIsRefused(r: int, c: int)
      requires Valid()
      requires InBounds(rows, columns, (r, c))
      ensures Blocked(r, c) <==> (r, c) in revealed || (r, c) in flagged || isGameOver
    {
      assert grid[r, c] == CellAt(rows, columns, mines, revealed, flagged, (r, c));
    }

    /**
     * A new game. `draws` stands for the random (row, column) pairs the placement
     * loop consumes; the loop finishes only if they hold `mineCount` distinct cells.
     */
    constructor (rows: int, columns: int, mineCount: int, draws: seq<Pos>)
      requires 0 <= rows && 0 <= columns
      requires forall i | 0 <= i < |draws| :: InBounds(rows, columns, draws[i])
      requires mineCount <= |Elements(draws)|
      ensures Valid() && fresh(grid)
      ensures this.rows == rows && this.columns == columns && this.mineCount == mineCount
      ensures mines <= Elements(draws)
      ensures exists used | 0 <= used <= |draws| ::
        mines == Elements(draws[..used]) && (0 < used ==> |Elements(draws[..used - 1])| < mineCount)
      ensures revealed == {} && flagged == {}
      ensures !isGameOver && !isGameWon
    {
      this.rows := rows;
      this.columns := columns;
      this.mineCount := mineCount;
      grid := new Cell[rows, columns]((r, c) => Fresh);
      isGameOver := false;
      isGameWon := false;
      mines := {};
      revealed := {};
      flagged := {};
      new;
      ghost var used := PlaceMines(draws);
      CalculateAdjacentMines();
    }

    /**
     * Mines cells by consuming draws until `mineCount` distinct cells are mined; a
     * draw that hits a mine changes nothing. Returns how many draws were used.
     */
    method PlaceMines(draws: seq<Pos>) returns (ghost used: nat)
      requires Shaped()
      requires forall i | 0 <= i < |draws| :: InBounds(rows, columns, draws[i])
      requires mineCount <= |Elements(draws)|
      requires mines == {}
      requires forall r, c {:trigger grid[r, c]} | 0 <= r < rows && 0 <= c < columns :: !grid[r, c].isMine
      modifies this`mines, grid
      ensures used <= |draws|
      ensures mines == Elements(draws[..used])
      ensures |mines| == if mineCount > 0 then mineCount else 0
      ensures 0 < used ==> |Elements(draws[..used - 1])| < mineCount
      ensures forall r, c {:trigger grid[r, c]} | 0 <= r < rows && 0 <= c < columns ::
        grid[r, c] == old(grid[r, c]).(isMine := (r, c) in mines)
    {
      var placedMines := 0;
      var i := 0;
      while placedMines < mineCount
        invariant 0 <= i <= |draws|
        invariant placedMines < mineCount ==> i < |draws|
        invariant mines == Elements(draws[..i])
        invariant placedMines == |mines|
        invariant placedMines == 0 || placedMines <= mineCount
        invariant 0 < i ==> |Elements(draws[..i - 1])| < mineCount
        invariant forall r, c {:trigger grid[r, c]} | 0 <= r < rows && 0 <= c < columns ::
          grid[r, c] == old(grid[r, c]).(isMine := (r, c) in mines)
        decreases |draws| - i
      {
        var (row, column) := draws[i];
        ElementsSnoc(draws, i);
        if !grid[row, column].isMine {
          grid[row, column] := grid[row, column].(isMine := true);
          placedMines := placedMines + 1;
          mines := mines + {(row, column)};
        }
        i := i + 1;
        if i == |draws| {
          assert draws[..i] == draws;
        }
      }
      used := i;
    }

    /** Gives every safe cell the number of mines among its neighbours; mine cells keep their count. */
    method CalculateAdjacentMines()
      requires Shaped()
      requires forall r, c {:trigger grid[r, c]} | 0 <= r < rows && 0 <= c < columns :: grid[r, c].isMine <==> (r, c) in mines
      modifies grid
      ensures forall r, c {:trigger grid[r, c]} | 0 <= r < rows && 0 <= c < columns :: grid[r, c] == Counted(rows, columns, mines, old(grid[r, c]), (r, c))
    {
      for row := 0 to rows
        invariant forall r, c {:trigger grid[r, c]} | 0 <= r < rows && 0 <= c < columns ::
          grid[r, c] == if r < row then Counted(rows, columns, mines, old(grid[r, c]), (r, c)) else old(grid[r, c])
      {
        for column := 0 to columns
          invariant forall r, c {:trigger grid[r, c]} | 0 <= r < rows && 0 <= c < columns ::
            grid[r, c] == if r < row || (r == row && c < column) then Counted(rows, columns, mines, old(grid[r, c]), (r, c)) else old(grid[r, c])
        {
          var cell := grid[row, column];
          assert forall q | q in Neighbours(rows, columns, (row, column)) :: grid[q.0, q.1].isMine <==> q in mines;
          if !cell.isMine {
            var adjacent := AdjacentCells(row, column);
            CountAdjacent((row, column), adjacent);
            grid[row, column] := cell.(adjacentMines := CountMines(adjacent));
          }
        }
      }
    }

    /** Counting the mines of a cell's neighbour list gives the number of mines around it. */
    lemma CountAdjacent(p: Pos, adjacent: seq<Pos>)
      requires Shaped()
      requires forall q | q in Neighbours(rows, columns, p) :: grid[q.0, q.1].isMine <==> q in mines
      requires forall q :: q in adjacent <==> q in Neighbours(rows, columns, p)
      requires forall i, j | 0 <= i < j < |adjacent| :: Before(adjacent[i], adjacent[j])
      ensures CountMines(adjacent) == MinesAround(rows, columns, mines, p)
    {
      assert Distinct(adjacent);
      MinesAroundCard(rows, columns, mines, p);
      assert (set q | q in adjacent && grid[q.0, q.1].isMine) == Neighbours(rows, columns, p) * mines;
    }

    /** The in-bounds neighbours of (row, column), in row-major order. */
    method AdjacentCells(row: int, column: int) returns (cells: seq<Pos>)
      ensures forall q :: q in cells <==> q in Neighbours(rows, columns, (row, column))
      ensures forall i, j | 0 <= i < j < |cells| :: Before(cells[i], cells[j])
    {
      var p := (row, column);
      cells := [];
      for r := row - 1 to row + 2
        invariant forall i | 0 <= i < |cells| :: cells[i] in Neighbours(rows, columns, p) && cells[i].0 < r
        invariant forall q | q in Neighbours(rows, columns, p) && q.0 < r :: q in cells
        invariant forall i, j | 0 <= i < j < |cells| :: Before(cells[i], cells[j])
      {
        for c := column - 1 to column + 2
          invariant forall i | 0 <= i < |cells| :: cells[i] in Neighbours(rows, columns, p) && Before(cells[i], (r, c))
          invariant forall q | q in Neighbours(rows, columns, p) && Before(q, (r, c)) :: q in cells
          invariant forall i, j | 0 <= i < j < |cells| :: Before(cells[i], cells[j])
        {
          if 0 <= r < rows && 0 <= c < columns && (r != row || c != column) {
            cells := cells + [(r, c)];
          }
        }
      }
    }

    /** How many of `cells` hold a mine. */
    function CountMines(cells: seq<Pos>): (n: nat)
      reads grid
      requires forall q | q in cells :: 0 <= q.0 < grid.Length0 && 0 <= q.1 < grid.Length1
      ensures n <= |cells|
      ensures Distinct(cells) ==> n == |set q | q in cells && grid[q.0, q.1].isMine|
    {
      if cells == [] then 0
      else
        var rest := CountMines(cells[1..]);
        assert Distinct(cells) ==>
          (set q | q in cells && grid[q.0, q.1].isMine)
          == (if grid[cells[0].0, cells[0].1].isMine then {cells[0]} else {})
             + (set q | q in cells[1..] && grid[q.0, q.1].isMine);
        (if grid[cells[0].0, cells[0].1].isMine then 1 else 0) + rest
    }

    /** On a valid game, the grid test of the win condition says that every safe cell is revealed. */
    lemma AllClearIsCleared()
      requires Valid()
      ensures AllClear() <==> Cleared(rows, columns, mines, revealed)
    {
      if AllClear() {
        forall p | p in Cells(rows, columns) - mines ensures p in revealed {
          assert grid[p.0, p.1] == CellAt(rows, columns, mines, revealed, flagged, p);
        }
      } else {
        var r, c :| 0 <= r < rows && 0 <= c < columns && !grid[r, c].isRevealed && !grid[r, c].isMine;
        assert grid[r, c] == CellAt(rows, columns, mines, revealed, flagged, (r, c));
      }
    }

    /** Sets the won flag once every cell is revealed or is a mine; never clears it. */
    method CheckForWin()
      requires Valid()
      modifies this`isGameWon
      ensures Valid()
      ensures isGameWon == (old(isGameWon) || Cleared(rows, columns, mines, revealed))
    {
      AllClearIsCleared();
      if AllClear() {
        isGameWon := true;
      }
    }

    /** Flips the flag of a covered cell; a revealed cell is left alone. */
    method ToggleFlag(row: int, column: int)
      requires Valid()
      requires InBounds(rows, columns, (row, column))
      modifies this`flagged, grid
      ensures Valid()
      ensures forall r, c {:trigger grid[r, c]} | 0 <= r < rows && 0 <= c < columns ::
        grid[r, c].isMine == old(grid[r, c].isMine) && grid[r, c].adjacentMines == old(grid[r, c].adjacentMines)
      ensures flagged == if (row, column) in revealed then old(flagged)
                         else if (row, column) in old(flagged) then old(flagged) - {(row, column)}
                         else old(flagged) + {(row, column)}
    {
      var cell := grid[row, column];
      assert cell == CellAt(rows, columns, mines, revealed, flagged, (row, column));
      if !cell.isRevealed {
        grid[row, column] := cell.(isFlagged := !cell.isFlagged);
        flagged := if cell.isFlagged then flagged - {(row, column)} else flagged + {(row, column)};
      }
    }

    /**
     * Reveals (row, column) unless it is revealed or flagged or the game is lost.
     * A mine ends the game; a safe cell with no adjacent mine reveals its
     * neighbours the same way. `order` lists the cells this call revealed.
     */
    method RevealCell(row: int, column: int) returns (ghost order: seq<Pos>)
      requires Valid()
      requires InBounds(rows, columns, (row, column))
      modifies this`isGameOver, this`isGameWon, this`revealed, grid
      decreases Openable(rows, columns, revealed, flagged), 2
      ensures Valid()
      ensures revealed == old(revealed) + Elements(order)
      ensures old(isGameWon) ==> isGameWon
      ensures forall r, c {:trigger grid[r, c]} | 0 <= r < rows && 0 <= c < columns ::
        grid[r, c].isMine == old(grid[r, c].isMine) && grid[r, c].adjacentMines == old(grid[r, c].adjacentMines)
      ensures old((row, column) in revealed || (row, column) in flagged || isGameOver) ==>
        order == [] && isGameOver == old(isGameOver) && isGameWon == old(isGameWon)
      ensures !old((row, column) in revealed || (row, column) in flagged || isGameOver) ==>
        && (row, column) in revealed
        && IsFlood((row, column), order, ZeroCells(rows, columns, mines), old(Openable(rows, columns, revealed, flagged)), rows, columns)
        && ((row, column) !in ZeroCells(rows, columns, mines) ==> order == [(row, column)])
        && (forall i | 0 < i < |order| :: order[i] !in mines)
        && isGameOver == ((row, column) in mines)
        && isGameWon == Cleared(rows, columns, mines, revealed)
    {
      order := [];
      var cell := grid[row, column];
      assert cell == CellAt(rows, columns, mines, revealed, flagged, (row, column));
      if Blocked(row, column) {
        return;
      }
      ghost var open := Openable(rows, columns, revealed, flagged);
      order := RevealOpen(row, column);
      if (row, column) !in ZeroCells(rows, columns, mines) {
        SingleUnlessZero((row, column), order, ZeroCells(rows, columns, mines), open, rows, columns);
      }
      CheckForWin();
    }

    /**
     * Reveals a covered, unflagged cell of a game still on: a mine ends the game,
     * a safe cell with no adjacent mine goes on to its neighbours. `order` lists
     * the cells revealed, this one first.
     */
    method RevealOpen(row: int, column: int) returns (ghost order: seq<Pos>)
      requires Valid() && !isGameOver
      requires InBounds(rows, columns, (row, column))
      requires (row, column) !in revealed && (row, column) !in flagged
      modifies this`isGameOver, this`isGameWon, this`revealed, grid
      decreases Openable(rows, columns, revealed, flagged), 1
      ensures Valid() && (old(isGameWon) ==> isGameWon)
      ensures revealed == old(revealed) + Elements(order)
      ensures IsFlood((row, column), order, ZeroCells(rows, columns, mines), old(Openable(rows, columns, revealed, flagged)), rows, columns)
      ensures forall i | 0 < i < |order| :: order[i] !in mines
      ensures isGameOver == ((row, column) in mines)
    {
      ghost var open := Openable(rows, columns, revealed, flagged);
      ghost var before := revealed;
      var cell := grid[row, column];
      assert cell == CellAt(rows, columns, mines, revealed, flagged, (row, column));
      ZeroOnGrid(row, column);
      Lone((row, column), ZeroCells(rows, columns, mines), open, rows, columns);
      Uncover(row, column);
      if !cell.isMine && cell.adjacentMines == 0 {
        order := RevealAdjacent(row, column, open);
        Absorb(before, order);
        NoMineInCascade((row, column), order, mines, open, rows, columns);
      } else {
        order := [(row, column)];
        assert Elements(order) == {(row, column)};
      }
    }

    /** Marks a covered, unflagged cell revealed, and ends the game if it is a mine. */
    method Uncover(row: int, column: int)
      requires Valid() && !isGameOver
      requires InBounds(rows, columns, (row, column))
      requires (row, column) !in revealed && (row, column) !in flagged
      modifies this`isGameOver, this`revealed, grid
      ensures Valid()
      ensures revealed == old(revealed) + {(row, column)}
      ensures (row, column) !in Openable(rows, columns, revealed, flagged)
      ensures old(Openable(rows, columns, revealed, flagged)) == Openable(rows, columns, revealed, flagged) + {(row, column)}
      ensures isGameOver == ((row, column) in mines)
    {
      var cell := grid[row, column];
      assert cell == CellAt(rows, columns, mines, revealed, flagged, (row, column));
      grid[row, column] := cell.(isRevealed := true);
      revealed := revealed + {(row, column)};
      if cell.isMine {
        isGameOver := true;
        assert (row, column) in revealed && (row, column) in mines;
      }
    }

    /**
     * Reveals, one after the other, the neighbours of the just revealed zero cell
     * (row, column). `open` is what a reveal could open before that cell was
     * revealed; `order` starts with the cell and goes on with what the neighbours' reveals opened.
     */
    method RevealAdjacent(row: int, column: int, ghost open: set<Pos>) returns (ghost order: seq<Pos>)
      requires Valid() && !isGameOver
      requires InBounds(rows, columns, (row, column)) && (row, column) in ZeroCells(rows, columns, mines)
      requires (row, column) in revealed && open == Openable(rows, columns, revealed, flagged) + {(row, column)}
      modifies this`isGameOver, this`isGameWon, this`revealed, grid
      decreases Openable(rows, columns, revealed, flagged), 4
      ensures Valid() && !isGameOver
      ensures old(isGameWon) ==> isGameWon
      ensures revealed == old(revealed) + Elements(order)
      ensures IsFlood((row, column), order, ZeroCells(rows, columns, mines), open, rows, columns)
    {
      var t := (row, column);
      var adjacent := AdjacentCells(row, column);
      order := [t];
      var k := 0;
      while k < |adjacent|
        invariant 0 <= k <= |adjacent|
        invariant Valid() && !isGameOver
        invariant old(isGameWon) ==> isGameWon
        invariant revealed == old(revealed) + Elements(order)
        invariant Openable(rows, columns, revealed, flagged) == open - Elements(order)
        invariant Spreads(t, order, ZeroCells(rows, columns, mines), open, rows, columns)
        invariant ClosedFrom(1, order, ZeroCells(rows, columns, mines), open, rows, columns)
        invariant forall j | 0 <= j < k :: adjacent[j] in open ==> adjacent[j] in order
      {
        ghost var sub: seq<Pos>;
        sub := RevealNeighbour(t, adjacent[k], open, old(revealed), order);
        Visit(adjacent, k, open, order, sub);
        order := order + sub;
        k := k + 1;
      }
      CloseAt(t, order, adjacent, ZeroCells(rows, columns, mines), open, rows, columns);
    }

    /**
     * One step of the neighbour loop: reveals the neighbour `q` of the zero cell
     * `t`, whose reveal has so far opened `order`. `sub` lists what this step opened.
     */
    method RevealNeighbour(t: Pos, q: Pos, ghost open: set<Pos>, ghost before: set<Pos>, ghost order: seq<Pos>)
      returns (ghost sub: seq<Pos>)
      requires Valid() && !isGameOver
      requires InBounds(rows, columns, t) && t in ZeroCells(rows, columns, mines) && q in Neighbours(rows, columns, t)
      requires revealed == before + Elements(order)
      requires Openable(rows, columns, revealed, flagged) == open - Elements(order)
      requires Spreads(t, order, ZeroCells(rows, columns, mines), open, rows, columns)
      requires ClosedFrom(1, order, ZeroCells(rows, columns, mines), open, rows, columns)
      modifies this`isGameOver, this`isGameWon, this`revealed, grid
      decreases Openable(rows, columns, revealed, flagged), 3
      ensures Valid() && !isGameOver
      ensures old(isGameWon) ==> isGameWon
      ensures revealed == before + Elements(order + sub)
      ensures Openable(rows, columns, revealed, flagged) == open - Elements(order + sub)
      ensures Spreads(t, order + sub, ZeroCells(rows, columns, mines), open, rows, columns)
      ensures ClosedFrom(1, order + sub, ZeroCells(rows, columns, mines), open, rows, columns)
      ensures q in open ==> q in order + sub
    {
      ZeroCell(rows, columns, mines, t);
      NoMinesAround(rows, columns, mines, t);
      assert q !in mines;
      ghost var seen := revealed;
      ghost var blocked := q in revealed || q in flagged;
      assert blocked ==> q !in Openable(rows, columns, revealed, flagged);
      sub := RevealCell(q.0, q.1);
      ElementsAppend(order, sub);
      assert before + Elements(order) + Elements(sub) == before + (Elements(order) + Elements(sub));
      assert Openable(rows, columns, seen + Elements(sub), flagged) == Openable(rows, columns, seen, flagged) - Elements(sub);
      assert open - Elements(order) - Elements(sub) == open - (Elements(order) + Elements(sub));
      Step(t, q, order, sub, ZeroCells(rows, columns, mines), open, rows, columns);
    }
  }
}
