/** What one flood reveal does to the revealed mask, stated as relations
    between the mask before (o) and after (n), with the lemmas that chain
    them along the recursion. */
module Flood {
  import opened Grid
  import opened Rules

  /** (i, j) was hidden in o and is revealed in n. */
  ghost predicate Opened(o: Mask, n: Mask, i: int, j: int)
  {
    !At(o, i, j) && At(n, i, j)
  }

  /** Every cell revealed in n is revealed in m. */
  ghost predicate Within(n: Mask, m: Mask)
  {
    forall i, j {:trigger At(m, i, j)} :: At(n, i, j) ==> At(m, i, j)
  }

  /** n has the shape of o and keeps every cell o reveals. */
  ghost predicate Grows(o: Mask, n: Mask)
  {
    |o| == |n| && (forall i :: 0 <= i < |o| ==> |o[i]| == |n[i]|) && Within(o, n)
  }

  /** Every playable, unflagged cell of the 3x3 block around (r, c) is revealed in n. */
  ghost predicate NeighborsOpen(shape: Shape, flagged: Mask, n: Mask, r: int, c: int)
  {
    forall i, j {:trigger At(n, i, j)} ::
      Near(r, c, i, j) && InBounds(shape, i, j) && !At(flagged, i, j) ==> At(n, i, j)
  }

  /** Every cell opened from o to n is playable, unflagged and not a mine. */
  ghost predicate OpenedSafely(shape: Shape, mines: Mask, flagged: Mask, o: Mask, n: Mask)
  {
    forall i, j {:trigger Opened(o, n, i, j)} :: Opened(o, n, i, j) ==>
      InBounds(shape, i, j) && !At(mines, i, j) && !At(flagged, i, j)
  }

  /** Every opened cell showing zero has its whole playable, unflagged block opened too. */
  ghost predicate Closed(shape: Shape, mines: Mask, flagged: Mask, o: Mask, n: Mask)
  {
    forall i, j {:trigger Opened(o, n, i, j)} :: Opened(o, n, i, j) && MinesAround(mines, i, j) == 0 ==>
      NeighborsOpen(shape, flagged, n, i, j)
  }

  /** The playable, unflagged cells of the 3x3 block around (r, c) that
      come before (i0, j0) in row-major order are revealed in n. */
  ghost predicate OpenBefore(shape: Shape, flagged: Mask, n: Mask, r: int, c: int, i0: int, j0: int)
  {
    forall i, j {:trigger At(n, i, j)} :: (Near(r, c, i, j) && (i < i0 || (i == i0 && j < j0))
                    && InBounds(shape, i, j) && !At(flagged, i, j)) ==> At(n, i, j)
  }

  /** Visiting (i0, j0) extends the revealed part of the block by one cell. */
  lemma OpenBeforeStep(shape: Shape, flagged: Mask, a: Mask, b: Mask, r: int, c: int, i0: int, j0: int)
    requires OpenBefore(shape, flagged, a, r, c, i0, j0) && Grows(a, b)
    requires InBounds(shape, i0, j0) && !At(flagged, i0, j0) ==> At(b, i0, j0)
    ensures OpenBefore(shape, flagged, b, r, c, i0, j0 + 1)
  {
  }

  /** Past the block's last column, the next row starts. */
  lemma OpenBeforeRow(shape: Shape, flagged: Mask, n: Mask, r: int, c: int, i0: int)
    requires OpenBefore(shape, flagged, n, r, c, i0, c + 2)
    ensures OpenBefore(shape, flagged, n, r, c, i0 + 1, c - 1)
  {
  }

  /** The playable cells not yet revealed: the measure of the flood reveal. */
  ghost function Unrevealed(shape: Shape, n: Mask): set<Cell>
  {
    set x | x in ValidCells(shape) && !At(n, x.0, x.1)
  }

  lemma UnrevealedShrinks(shape: Shape, a: Mask, b: Mask)
    requires Grows(a, b)
    ensures Unrevealed(shape, b) <= Unrevealed(shape, a)
  {
  }

  /** A reveal that opens nothing satisfies the three facts. */
  lemma NothingOpened(shape: Shape, mines: Mask, flagged: Mask, m: Mask)
    ensures Grows(m, m) && OpenedSafely(shape, mines, flagged, m, m) && Closed(shape, mines, flagged, m, m)
  {
  }

  /** Opening (r, c) first and then the cells opened from `start` on
      satisfies the three facts relative to the mask before (r, c). */
  lemma OpenedFirst(shape: Shape, mines: Mask, flagged: Mask, o: Mask, start: Mask, n: Mask, r: int, c: int)
    requires 0 <= r < |o| && 0 <= c < |o[r]| && !o[r][c] && start == o[r := o[r][c := true]]
    requires InBounds(shape, r, c) && !At(mines, r, c) && !At(flagged, r, c)
    requires Grows(start, n) && OpenedSafely(shape, mines, flagged, start, n) && Closed(shape, mines, flagged, start, n)
    requires MinesAround(mines, r, c) == 0 ==> NeighborsOpen(shape, flagged, n, r, c)
    ensures Grows(o, n) && OpenedSafely(shape, mines, flagged, o, n) && Closed(shape, mines, flagged, o, n)
  {
    assert forall i, j :: (i, j) != (r, c) ==> At(start, i, j) == At(o, i, j);
    forall i, j | Opened(o, n, i, j)
      ensures InBounds(shape, i, j) && !At(mines, i, j) && !At(flagged, i, j)
      ensures MinesAround(mines, i, j) == 0 ==> NeighborsOpen(shape, flagged, n, i, j)
    {
      if (i, j) != (r, c) {
        assert Opened(start, n, i, j);
      }
    }
  }

  /** The three facts above compose along two successive reveals. */
  lemma Chain(shape: Shape, mines: Mask, flagged: Mask, a: Mask, b: Mask, c: Mask)
    requires Grows(a, b) && OpenedSafely(shape, mines, flagged, a, b) && Closed(shape, mines, flagged, a, b)
    requires Grows(b, c) && OpenedSafely(shape, mines, flagged, b, c) && Closed(shape, mines, flagged, b, c)
    ensures Grows(a, c) && OpenedSafely(shape, mines, flagged, a, c) && Closed(shape, mines, flagged, a, c)
  {
    forall i, j | Opened(a, c, i, j)
      ensures InBounds(shape, i, j) && !At(mines, i, j) && !At(flagged, i, j)
      ensures MinesAround(mines, i, j) == 0 ==> NeighborsOpen(shape, flagged, c, i, j)
    {
      if At(b, i, j) {
        assert Opened(a, b, i, j);
        if MinesAround(mines, i, j) == 0 {
          assert NeighborsOpen(shape, flagged, b, i, j);
          forall i2, j2 | Near(i, j, i2, j2) && InBounds(shape, i2, j2) && !At(flagged, i2, j2)
            ensures At(c, i2, j2)
          {
            assert At(b, i2, j2);
          }
        }
      } else {
        assert Opened(b, c, i, j);
      }
    }
  }

  // ---------------------------------------------------------------------
  // The flood opens no more than it must
  // ---------------------------------------------------------------------

  /** Every mask m that holds o and, unless it is flagged, (r, c), and in
      which each cell added to o that shows zero has its playable, unflagged
      block, holds n too: no cell opens that the recursion does not reach. */
  ghost predicate Least(shape: Shape, mines: Mask, flagged: Mask, o: Mask, n: Mask, r: int, c: int)
  {
    forall m :: Within(o, m) && Closed(shape, mines, flagged, o, m) && (!At(flagged, r, c) ==> At(m, r, c))
      ==> Within(n, m)
  }

  /** The same bound for the visit of the block around a zero cell (r, c):
      every such m that holds the block holds n. */
  ghost predicate LeastAround(shape: Shape, mines: Mask, flagged: Mask, o: Mask, n: Mask, r: int, c: int)
  {
    forall m :: Within(o, m) && Closed(shape, mines, flagged, o, m) && NeighborsOpen(shape, flagged, m, r, c)
      ==> Within(n, m)
  }

  /** Closure over the cells added to o carries over to a larger start b. */
  lemma ClosedNarrows(shape: Shape, mines: Mask, flagged: Mask, o: Mask, b: Mask, m: Mask)
    requires Within(o, b) && Closed(shape, mines, flagged, o, m)
    ensures Closed(shape, mines, flagged, b, m)
  {
    forall i, j | Opened(b, m, i, j) && MinesAround(mines, i, j) == 0
      ensures NeighborsOpen(shape, flagged, m, i, j)
    {
      assert Opened(o, m, i, j);
    }
  }

  /** Opening (r, c) and then, when it shows zero, the least flood around
      it is the least flood from (r, c); a numbered cell opens itself alone. */
  lemma LeastFirst(shape: Shape, mines: Mask, flagged: Mask, o: Mask, start: Mask, n: Mask, r: int, c: int)
    requires 0 <= r < |o| && 0 <= c < |o[r]| && !o[r][c] && start == o[r := o[r][c := true]]
    requires !At(flagged, r, c)
    requires MinesAround(mines, r, c) == 0 ==> LeastAround(shape, mines, flagged, start, n, r, c)
    requires MinesAround(mines, r, c) != 0 ==> n == start
    ensures Least(shape, mines, flagged, o, n, r, c)
  {
    assert forall i, j :: At(start, i, j) ==> (i, j) == (r, c) || At(o, i, j);
    forall m | Within(o, m) && Closed(shape, mines, flagged, o, m) && (!At(flagged, r, c) ==> At(m, r, c))
      ensures Within(n, m)
    {
      assert Within(start, m);
      ClosedNarrows(shape, mines, flagged, o, start, m);
      if MinesAround(mines, r, c) == 0 {
        assert Opened(o, m, r, c);
      }
    }
  }

  /** The least flood from a playable cell (i, j) of the block around
      (r, c) stays within every mask that holds the block. */
  lemma LeastVisit(shape: Shape, mines: Mask, flagged: Mask, o: Mask, n: Mask, r: int, c: int, i: int, j: int)
    requires Least(shape, mines, flagged, o, n, i, j)
    requires Near(r, c, i, j) && InBounds(shape, i, j)
    ensures LeastAround(shape, mines, flagged, o, n, r, c)
  {
    forall m | Within(o, m) && Closed(shape, mines, flagged, o, m) && NeighborsOpen(shape, flagged, m, r, c)
      ensures Within(n, m)
    {
      assert !At(flagged, i, j) ==> At(m, i, j);
    }
  }

  /** The bound of the block walk composes along successive visits. */
  lemma LeastAroundChain(shape: Shape, mines: Mask, flagged: Mask, a: Mask, b: Mask, n: Mask, r: int, c: int)
    requires Within(a, b) && LeastAround(shape, mines, flagged, a, b, r, c)
    requires LeastAround(shape, mines, flagged, b, n, r, c)
    ensures LeastAround(shape, mines, flagged, a, n, r, c)
  {
    forall m | Within(a, m) && Closed(shape, mines, flagged, a, m) && NeighborsOpen(shape, flagged, m, r, c)
      ensures Within(n, m)
    {
      assert Within(b, m);
      ClosedNarrows(shape, mines, flagged, a, b, m);
    }
  }

  /** What one flood reveal from (r, c) does: the revealed cells only
      grow, the new ones are safe, each new zero cell has its block opened,
      (r, c) ends revealed unless flagged, and nothing else opens. */
  ghost predicate Flooded(shape: Shape, mines: Mask, flagged: Mask, o: Mask, n: Mask, r: int, c: int)
  {
    Grows(o, n) && OpenedSafely(shape, mines, flagged, o, n) && Closed(shape, mines, flagged, o, n)
    && (!At(flagged, r, c) ==> At(n, r, c)) && Least(shape, mines, flagged, o, n, r, c)
  }

  /** Two masks of one shape with the same revealed cells are equal. */
  lemma SameCells(a: Mask, b: Mask)
    requires |a| == |b| && (forall i :: 0 <= i < |a| ==> |a[i]| == |b[i]|)
    requires Within(a, b) && Within(b, a)
    ensures a == b
  {
    forall i | 0 <= i < |a|
      ensures a[i] == b[i]
    {
      forall j | 0 <= j < |a[i]|
        ensures a[i][j] == b[i][j]
      {
        assert At(a, i, j) == At(b, i, j);
      }
    }
  }

  /** The flood from (r, c) is determined by the mask before it. */
  lemma FloodUnique(shape: Shape, mines: Mask, flagged: Mask, o: Mask, a: Mask, b: Mask, r: int, c: int)
    requires Flooded(shape, mines, flagged, o, a, r, c) && Flooded(shape, mines, flagged, o, b, r, c)
    ensures a == b
  {
    assert Within(a, b);
    assert Within(b, a);
    SameCells(a, b);
  }

  /** A hidden, unflagged, safe cell showing a number floods to itself alone. */
  lemma FloodNumbered(shape: Shape, mines: Mask, flagged: Mask, o: Mask, n: Mask, r: int, c: int)
    requires 0 <= r < |o| && 0 <= c < |o[r]| && !o[r][c]
    requires InBounds(shape, r, c) && !At(mines, r, c) && !At(flagged, r, c) && MinesAround(mines, r, c) != 0
    requires Flooded(shape, mines, flagged, o, n, r, c)
    ensures n == o[r := o[r][c := true]]
  {
    var start := o[r := o[r][c := true]];
    assert forall i, j :: At(start, i, j) <==> (i, j) == (r, c) || At(o, i, j);
    assert forall i, j :: Opened(o, start, i, j) ==> (i, j) == (r, c);
    assert Flooded(shape, mines, flagged, o, start, r, c);
    FloodUnique(shape, mines, flagged, o, n, start, r, c);
  }

  /** Every revealed cell is playable and holds no mine. */
  ghost predicate RevealsSafe(shape: Shape, mines: Mask, revealed: Mask)
  {
    forall i, j {:trigger At(revealed, i, j)} :: At(revealed, i, j) ==> InBounds(shape, i, j) && !At(mines, i, j)
  }

  /** No cell is both revealed and flagged. */
  ghost predicate Apart(revealed: Mask, flagged: Mask)
  {
    forall i, j {:trigger At(revealed, i, j)} :: At(revealed, i, j) ==> !At(flagged, i, j)
  }

  /** A flood that opens only safe, unflagged cells keeps the revealed
      cells safe and unflagged. */
  lemma RevealsStaySafe(shape: Shape, mines: Mask, flagged: Mask, o: Mask, n: Mask)
    requires RevealsSafe(shape, mines, o) && Apart(o, flagged)
    requires Grows(o, n) && OpenedSafely(shape, mines, flagged, o, n)
    ensures RevealsSafe(shape, mines, n) && Apart(n, flagged)
  {
    forall i, j | At(n, i, j)
      ensures InBounds(shape, i, j) && !At(mines, i, j) && !At(flagged, i, j)
    {
      if !At(o, i, j) {
        assert Opened(o, n, i, j);
      }
    }
  }
}
