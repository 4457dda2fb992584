/**
 * The region a reveal opens, described independently of the order in which the
 * recursive reveal visits neighbours.  `zeros` are the cells that expand (safe
 * cells with no adjacent mine) and `open` the cells a reveal may still open
 * (covered and unflagged when the reveal starts).
 */
module FloodFill {
  import opened Grid

  /**
   * `order` starts at `t`, lists distinct open cells of the board, and every
   * cell after the first lies next to an earlier cell that expands.
   */
  ghost predicate Spreads(t: Pos, order: seq<Pos>, zeros: set<Pos>, open: set<Pos>, rows: int, columns: int) {
    && |order| > 0 && order[0] == t
    && Distinct(order)
    && (forall i | 0 <= i < |order| :: order[i] in open && InBounds(rows, columns, order[i]))
    && (forall i | 0 < i < |order| :: HasSupport(order, zeros, i))
  }

  /** Some cell before `order[i]` expands and lies next to it. */
  ghost predicate HasSupport(order: seq<Pos>, zeros: set<Pos>, i: int)
    requires 0 <= i < |order|
  {
    exists j | 0 <= j < i :: order[j] in zeros && Adjacent(order[j], order[i])
  }

  /** Every open neighbour of an expanding cell of `order[from..]` is in `order`. */
  ghost predicate ClosedFrom(from: nat, order: seq<Pos>, zeros: set<Pos>, open: set<Pos>, rows: int, columns: int) {
    forall i, q | from <= i < |order| && order[i] in zeros && q in Neighbours(rows, columns, order[i]) && q in open
      :: q in order
  }

  /** `order` is a complete flood fill from `t`: nothing beyond it is reachable. */
  ghost predicate IsFlood(t: Pos, order: seq<Pos>, zeros: set<Pos>, open: set<Pos>, rows: int, columns: int) {
    Spreads(t, order, zeros, open, rows, columns) && ClosedFrom(0, order, zeros, open, rows, columns)
  }

  /** An open cell that does not expand is a flood fill on its own. */
  lemma Lone(t: Pos, zeros: set<Pos>, open: set<Pos>, rows: int, columns: int)
    requires t in open && InBounds(rows, columns, t)
    ensures t !in zeros ==> IsFlood(t, [t], zeros, open, rows, columns)
  {
  }

  /** A flood fill from a cell that does not expand opens that cell alone. */
  lemma SingleUnlessZero(t: Pos, order: seq<Pos>, zeros: set<Pos>, open: set<Pos>, rows: int, columns: int)
    requires Spreads(t, order, zeros, open, rows, columns)
    requires t !in zeros
    ensures order == [t]
  {
    assert |order| > 1 ==> HasSupport(order, zeros, 1);
  }

  /**
   * Appending the flood fill of a neighbour `q` of the expanding start cell `t`,
   * taken over the cells still open, keeps the accumulated cells a spreading
   * sequence closed everywhere except at `t`.
   */
  lemma Extend(t: Pos, q: Pos, order: seq<Pos>, sub: seq<Pos>,
               zeros: set<Pos>, open: set<Pos>, rows: int, columns: int)
    requires Spreads(t, order, zeros, open, rows, columns) && ClosedFrom(1, order, zeros, open, rows, columns)
    requires t in zeros && Adjacent(t, q)
    requires IsFlood(q, sub, zeros, open - Elements(order), rows, columns)
    ensures Spreads(t, order + sub, zeros, open, rows, columns)
    ensures ClosedFrom(1, order + sub, zeros, open, rows, columns)
  {
    ExtendDistinct(order, sub, open);
    ExtendSupported(t, q, order, sub, zeros, open, rows, columns);
    ExtendClosed(t, q, order, sub, zeros, open, rows, columns);
  }

  /**
   * One neighbour step of a reveal from the expanding cell `t`: `sub` is either
   * empty, when `q` could not be opened, or the flood fill from `q` over the
   * cells still open. Either way `order + sub` stays a spreading sequence
   * closed beyond `t`, and it holds `q` if `q` was open to begin with.
   */
  lemma Step(t: Pos, q: Pos, order: seq<Pos>, sub: seq<Pos>,
             zeros: set<Pos>, open: set<Pos>, rows: int, columns: int)
    requires Spreads(t, order, zeros, open, rows, columns) && ClosedFrom(1, order, zeros, open, rows, columns)
    requires t in zeros && Adjacent(t, q)
    requires sub != [] ==> IsFlood(q, sub, zeros, open - Elements(order), rows, columns)
    requires sub == [] ==> q !in open - Elements(order)
    ensures Spreads(t, order + sub, zeros, open, rows, columns)
    ensures ClosedFrom(1, order + sub, zeros, open, rows, columns)
    ensures q in open ==> q in order + sub
  {
    if sub != [] {
      Extend(t, q, order, sub, zeros, open, rows, columns);
      assert (order + sub)[|order|] == q;
    } else {
      assert order + sub == order;
      assert q in open ==> q in Elements(order);
    }
  }

  /**
   * Once every open neighbour of the start cell `t`, visited in the order
   * `adjacent`, is in `order`, the sequence is closed at `t` as well.
   */
  lemma CloseAt(t: Pos, order: seq<Pos>, adjacent: seq<Pos>, zeros: set<Pos>, open: set<Pos>, rows: int, columns: int)
    requires |order| > 0 && order[0] == t
    requires ClosedFrom(1, order, zeros, open, rows, columns)
    requires forall q :: q in adjacent <==> q in Neighbours(rows, columns, t)
    requires forall j | 0 <= j < |adjacent| :: adjacent[j] in open ==> adjacent[j] in order
    ensures ClosedFrom(0, order, zeros, open, rows, columns)
  {
    forall q | q in Neighbours(rows, columns, t) && q in open ensures q in order {
      var j :| 0 <= j < |adjacent| && adjacent[j] == q;
    }
  }

  /**
   * Visiting `adjacent[k]` extends the open neighbours known to be covered by one.
   * Proved apart from the neighbour loop, whose heap context makes the same step expensive.
   */
  lemma Visit(adjacent: seq<Pos>, k: int, open: set<Pos>, order: seq<Pos>, sub: seq<Pos>)
    requires 0 <= k < |adjacent|
    requires forall j | 0 <= j < k :: adjacent[j] in open ==> adjacent[j] in order
    requires adjacent[k] in open ==> adjacent[k] in order + sub
    ensures forall j | 0 <= j < k + 1 :: adjacent[j] in open ==> adjacent[j] in order + sub
  {
  }

  lemma ExtendDistinct(order: seq<Pos>, sub: seq<Pos>, open: set<Pos>)
    requires Distinct(order) && Distinct(sub)
    requires forall i | 0 <= i < |sub| :: sub[i] in open - Elements(order)
    ensures Distinct(order + sub)
  {
    var all := order + sub;
    var n := |order|;
    forall i, j | 0 <= i < j < |all| ensures all[i] != all[j] {
      if j < n {
        assert all[i] == order[i] && all[j] == order[j];
      } else if i >= n {
        assert all[i] == sub[i - n] && all[j] == sub[j - n];
      } else {
        assert sub[j - n] in open - Elements(order);
        assert all[i] in Elements(order);
      }
    }
  }

  lemma ExtendSupported(t: Pos, q: Pos, order: seq<Pos>, sub: seq<Pos>,
                        zeros: set<Pos>, open: set<Pos>, rows: int, columns: int)
    requires Spreads(t, order, zeros, open, rows, columns)
    requires t in zeros && Adjacent(t, q)
    requires Spreads(q, sub, zeros, open - Elements(order), rows, columns)
    requires Distinct(order + sub)
    ensures Spreads(t, order + sub, zeros, open, rows, columns)
  {
    var all := order + sub;
    var n := |order|;
    forall i | 0 <= i < |all| ensures all[i] in open && InBounds(rows, columns, all[i]) {
      if i >= n {
        assert all[i] == sub[i - n];
      }
    }
    forall i | 0 < i < |all| ensures HasSupport(all, zeros, i) {
      if i < n {
        assert HasSupport(order, zeros, i);
        var j :| 0 <= j < i && order[j] in zeros && Adjacent(order[j], order[i]);
        assert all[j] == order[j] && all[i] == order[i];
      } else if i == n {
        assert all[0] == t && all[i] == sub[0] == q;
      } else {
        assert HasSupport(sub, zeros, i - n);
        var j :| 0 <= j < i - n && sub[j] in zeros && Adjacent(sub[j], sub[i - n]);
        assert all[j + n] == sub[j] && all[i] == sub[i - n];
      }
    }
  }

  lemma ExtendClosed(t: Pos, q: Pos, order: seq<Pos>, sub: seq<Pos>,
                     zeros: set<Pos>, open: set<Pos>, rows: int, columns: int)
    requires ClosedFrom(1, order, zeros, open, rows, columns)
    requires ClosedFrom(0, sub, zeros, open - Elements(order), rows, columns)
    ensures ClosedFrom(1, order + sub, zeros, open, rows, columns)
  {
    var all := order + sub;
    var n := |order|;
    forall i, r | 1 <= i < |all| && all[i] in zeros && r in Neighbours(rows, columns, all[i]) && r in open
      ensures r in all
    {
      if i < n {
        assert all[i] == order[i];
      } else if r !in Elements(order) {
        assert all[i] == sub[i - n];
        assert r in sub;
      }
    }
  }

  /** The first `n` cells of a spreading sequence from `t` all lie in any flood fill from `t`. */
  lemma {:induction false} Covered(t: Pos, o1: seq<Pos>, o2: seq<Pos>, zeros: set<Pos>, open: set<Pos>,
                                   rows: int, columns: int, n: nat)
    requires n <= |o1|
    requires Spreads(t, o1, zeros, open, rows, columns) && IsFlood(t, o2, zeros, open, rows, columns)
    ensures forall i | 0 <= i < n :: o1[i] in o2
  {
    if n > 0 {
      Covered(t, o1, o2, zeros, open, rows, columns, n - 1);
      var i := n - 1;
      if i > 0 {
        assert HasSupport(o1, zeros, i);
        var j :| 0 <= j < i && o1[j] in zeros && Adjacent(o1[j], o1[i]);
        var m :| 0 <= m < |o2| && o2[m] == o1[j];
        assert o1[i] in Neighbours(rows, columns, o2[m]);
      } else {
        assert o1[0] == o2[0];
      }
    }
  }

  /**
   * Two flood fills from the same cell over the same board open the same cells,
   * whatever order each visited the neighbours in.
   */
  lemma FloodUnique(t: Pos, o1: seq<Pos>, o2: seq<Pos>, zeros: set<Pos>, open: set<Pos>, rows: int, columns: int)
    requires IsFlood(t, o1, zeros, open, rows, columns) && IsFlood(t, o2, zeros, open, rows, columns)
    ensures Elements(o1) == Elements(o2)
  {
    Covered(t, o1, o2, zeros, open, rows, columns, |o1|);
    Covered(t, o2, o1, zeros, open, rows, columns, |o2|);
  }
}
