/** Positions on a `rows` x `columns` board and their Moore neighbourhoods. */
module Grid {

  /** A (row, column) coordinate. */
  type Pos = (int, int)

  predicate InBounds(rows: int, columns: int, p: Pos) {
    0 <= p.0 < rows && 0 <= p.1 < columns
  }

  /** Two different positions at most one row and one column apart. */
  predicate Adjacent(p: Pos, q: Pos) {
    p != q && -1 <= p.0 - q.0 <= 1 && -1 <= p.1 - q.1 <= 1
  }

  /** Row-major order: by row, then by column. */
  predicate Before(p: Pos, q: Pos) {
    p.0 < q.0 || (p.0 == q.0 && p.1 < q.1)
  }

  predicate Distinct<T(==)>(s: seq<T>) {
    forall i, j | 0 <= i < j < |s| :: s[i] != s[j]
  }

  function Elements<T>(s: seq<T>): set<T> {
    set x | x in s
  }

  lemma ElementsAppend<T>(s: seq<T>, t: seq<T>)
    ensures Elements(s + t) == Elements(s) + Elements(t)
  {
  }

  lemma ElementsSnoc<T>(s: seq<T>, i: int)
    requires 0 <= i < |s|
    ensures Elements(s[..i + 1]) == Elements(s[..i]) + {s[i]}
  {
    assert s[..i + 1] == s[..i] + [s[i]];
  }

  /** Adding the first element of `s` before all of `s` adds nothing. */
  lemma Absorb<T>(a: set<T>, s: seq<T>)
    requires |s| > 0
    ensures a + {s[0]} + Elements(s) == a + Elements(s)
  {
    assert s[0] in Elements(s);
  }

  /** Every position of the board. */
  function Cells(rows: int, columns: int): (cells: set<Pos>)
    ensures forall p :: p in cells <==> InBounds(rows, columns, p)
  {
    set r, c | 0 <= r < rows && 0 <= c < columns :: (r, c)
  }

  /** The in-bounds positions adjacent to `p`; positions off the board are absent, there is no wrap-around. */
  function Neighbours(rows: int, columns: int, p: Pos): (ns: set<Pos>)
    ensures forall q :: q in ns <==> InBounds(rows, columns, q) && Adjacent(p, q)
  {
    set q | q in Cells(rows, columns) && Adjacent(p, q)
  }

  /** The eight positions around `p`, in row-major order, whether on the board or not. */
  function Ring(p: Pos): (ring: seq<Pos>)
    ensures |ring| == 8
  {
    var (r, c) := p;
    [(r - 1, c - 1), (r - 1, c), (r - 1, c + 1), (r, c - 1), (r, c + 1), (r + 1, c - 1), (r + 1, c), (r + 1, c + 1)]
  }

  /** The ring around `p` holds exactly the positions adjacent to `p`. */
  lemma RingAdjacent(p: Pos, q: Pos)
    ensures q in Ring(p) <==> Adjacent(p, q)
  {
    var ring := Ring(p);
    if Adjacent(p, q) {
      var (dr, dc) := (q.0 - p.0, q.1 - p.1);
      var k := if dr == -1 then 1 + dc else if dr == 0 then (if dc == -1 then 3 else 4) else 6 + dc;
      assert ring[k] == q;
    }
  }

  lemma RingDistinct(p: Pos)
    ensures Distinct(Ring(p))
  {
  }

  /** The positions of row `r` with a column below `columns`. */
  function RowCells(r: int, columns: int): set<Pos> {
    set c | 0 <= c < columns :: (r, c)
  }

  lemma {:induction false} RowCellsCard(r: int, columns: nat)
    ensures |RowCells(r, columns)| == columns
  {
    if columns > 0 {
      RowCellsCard(r, columns - 1);
      assert (r, columns - 1) !in RowCells(r, columns - 1);
      assert RowCells(r, columns) == RowCells(r, columns - 1) + {(r, columns - 1)};
    } else {
      assert RowCells(r, columns) == {};
    }
  }

  /** A board has exactly `rows * columns` cells. */
  lemma {:induction false} CellsCard(rows: nat, columns: nat)
    ensures |Cells(rows, columns)| == rows * columns
  {
    if rows > 0 {
      var top, last := Cells(rows - 1, columns), RowCells(rows - 1, columns);
      CellsCard(rows - 1, columns);
      RowCellsCard(rows - 1, columns);
      assert Cells(rows, columns) == top + last;
      assert top !! last;
      MulStep(rows, columns);
    } else {
      assert Cells(rows, columns) == {};
    }
  }

  /** The product step of `CellsCard`, proved on its own: inside that proof the solver does not find it within budget. */
  lemma MulStep(rows: int, columns: int)
    ensures (rows - 1) * columns + columns == rows * columns
  {
  }

  /** A cell has at most eight neighbours. */
  lemma NeighboursAtMost8(rows: int, columns: int, p: Pos)
    ensures |Neighbours(rows, columns, p)| <= 8
  {
    var (r, c) := p;
    var ring := {(r - 1, c - 1), (r - 1, c), (r - 1, c + 1),
                 (r, c - 1), (r, c + 1),
                 (r + 1, c - 1), (r + 1, c), (r + 1, c + 1)};
    assert Neighbours(rows, columns, p) <= ring;
    SubsetCard(Neighbours(rows, columns, p), ring);
  }

  lemma {:induction false} SubsetCard<T>(a: set<T>, b: set<T>)
    requires a <= b
    ensures |a| <= |b|
  {
    if a != {} {
      var x :| x in a;
      SubsetCard(a - {x}, b - {x});
    }
  }
}
