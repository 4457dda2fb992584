/** Facts about a placement of mines on a board, independent of the game's mutable state. */
module Layout {
  import opened Grid
  import opened FloodFill

  /** How many of the cells of `s` are on the board and hold a mine. */
  ghost function MinesIn(rows: int, columns: int, mines: set<Pos>, s: seq<Pos>): (n: nat)
    ensures n <= |s|
  {
    if s == [] then 0
    else (if InBounds(rows, columns, s[0]) && s[0] in mines then 1 else 0) + MinesIn(rows, columns, mines, s[1..])
  }

  /** The number of mines among the in-bounds neighbours of `p`, counted around its ring. */
  ghost function MinesAround(rows: int, columns: int, mines: set<Pos>, p: Pos): (n: nat)
    ensures n <= 8
  {
    MinesIn(rows, columns, mines, Ring(p))
  }

  /** Counting along a sequence without repeats counts the set of its mined, in-bounds cells. */
  lemma {:induction false} MinesInCard(rows: int, columns: int, mines: set<Pos>, s: seq<Pos>)
    requires Distinct(s)
    ensures MinesIn(rows, columns, mines, s) == |set q | q in s && InBounds(rows, columns, q) && q in mines|
  {
    if s != [] {
      var rest := s[1..];
      assert Distinct(rest) by {
        forall i, j | 0 <= i < j < |rest| ensures rest[i] != rest[j] {
          assert rest[i] == s[i + 1] && rest[j] == s[j + 1];
        }
      }
      MinesInCard(rows, columns, mines, rest);
      var head := if InBounds(rows, columns, s[0]) && s[0] in mines then {s[0]} else {};
      assert s[0] !in rest by {
        forall i | 0 <= i < |rest| ensures rest[i] != s[0] {
          assert rest[i] == s[i + 1];
        }
      }
      assert (set q | q in s && InBounds(rows, columns, q) && q in mines)
          == head + (set q | q in rest && InBounds(rows, columns, q) && q in mines);
    }
  }

  /** The ring count is the number of mined neighbours. */
  lemma MinesAroundCard(rows: int, columns: int, mines: set<Pos>, p: Pos)
    ensures MinesAround(rows, columns, mines, p) == |Neighbours(rows, columns, p) * mines|
  {
    RingDistinct(p);
    MinesInCard(rows, columns, mines, Ring(p));
    forall q ensures q in Ring(p) <==> Adjacent(p, q) {
      RingAdjacent(p, q);
    }
    assert (set q | q in Ring(p) && InBounds(rows, columns, q) && q in mines) == Neighbours(rows, columns, p) * mines;
  }

  /** No mine is counted around `p` exactly when none of its neighbours is a mine. */
  lemma NoMinesAround(rows: int, columns: int, mines: set<Pos>, p: Pos)
    ensures MinesAround(rows, columns, mines, p) == 0 <==> forall q | q in Neighbours(rows, columns, p) :: q !in mines
  {
    MinesAroundCard(rows, columns, mines, p);
    DisjointCard(Neighbours(rows, columns, p), mines);
  }

  lemma DisjointCard(a: set<Pos>, b: set<Pos>)
    ensures |a * b| == 0 <==> forall q | q in a :: q !in b
  {
    if forall q | q in a :: q !in b {
      assert a * b == {};
    } else {
      var q :| q in a && q in b;
      assert q in a * b;
    }
  }

  /** The safe cells with no mine next to them: revealing one of these opens its neighbours too. */
  ghost function ZeroCells(rows: int, columns: int, mines: set<Pos>): set<Pos> {
    set p | p in Cells(rows, columns) && p !in mines && MinesAround(rows, columns, mines, p) == 0
  }

  /** Membership of `ZeroCells`, spelled out. */
  lemma ZeroCell(rows: int, columns: int, mines: set<Pos>, p: Pos)
    requires InBounds(rows, columns, p)
    ensures p in ZeroCells(rows, columns, mines) <==> p !in mines && MinesAround(rows, columns, mines, p) == 0
  {
  }

  /**
   * Every cell a flood fill opens after the first is next to a zero cell, so the
   * cascade never opens a mine.
   */
  lemma NoMineInCascade(t: Pos, order: seq<Pos>, mines: set<Pos>, open: set<Pos>, rows: int, columns: int)
    requires Spreads(t, order, ZeroCells(rows, columns, mines), open, rows, columns)
    ensures forall i | 0 < i < |order| :: order[i] !in mines
  {
    var zeros := ZeroCells(rows, columns, mines);
    forall i | 0 < i < |order| ensures order[i] !in mines {
      assert HasSupport(order, zeros, i);
      var j :| 0 <= j < i && order[j] in zeros && Adjacent(order[j], order[i]);
      NoMinesAround(rows, columns, mines, order[j]);
      assert order[i] in Neighbours(rows, columns, order[j]);
    }
  }

  /**
   * Placement by drawing cells until `mineCount` distinct ones are mined can only
   * finish when the board has room for that many mines.
   */
  lemma PlacementNeedsRoom(rows: nat, columns: nat, mineCount: int, draws: seq<Pos>)
    requires forall i | 0 <= i < |draws| :: InBounds(rows, columns, draws[i])
    requires mineCount <= |Elements(draws)|
    ensures mineCount <= rows * columns
  {
    assert Elements(draws) <= Cells(rows, columns);
    SubsetCard(Elements(draws), Cells(rows, columns));
    CellsCard(rows, columns);
  }
}
