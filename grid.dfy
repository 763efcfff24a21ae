/** The board geometry of the irregular Minesweeper engine: a ragged 0/1
    shape grid, the per-cell boolean masks laid over it, and the list of
    playable cells in the order the engine walks them. */
module Grid {

  /** One entry of the shape grid: 1 marks a playable cell, 0 a hole. */
  type Bit = x: int | 0 <= x <= 1

  /** The ragged shape grid; rows may have different lengths. */
  type Shape = seq<seq<Bit>>

  /** A per-cell boolean mask (mines, revealed, flagged). */
  type Mask = seq<seq<bool>>

  /** A cell coordinate (row, column). */
  type Cell = (int, int)

  /** A cell is playable exactly when its row exists, its column exists in
      that row, and the entry there is 1; any other index, negative ones
      included, is not playable. This agrees with the walk of forEachCell,
      which visits an entry of a row when it is truthy. */
  predicate InBounds(shape: Shape, r: int, c: int)
    ensures InBounds(shape, r, c) <==> 0 <= r < |shape| && (r, c) in RowCells(shape, r, |shape[r]|)
  {
    if 0 <= r < |shape| then
      RowCellsMembers(shape, r, |shape[r]|, r, c);
      0 <= c < |shape[r]| && shape[r][c] == 1
    else false
  }

  /** Mask lookup that treats every index outside the mask as false. */
  predicate At(m: Mask, r: int, c: int)
  {
    0 <= r < |m| && 0 <= c < |m[r]| && m[r][c]
  }

  /** (i, j) lies in the 3x3 block centred on (r, c), the centre included:
      one of the nine cells the first click forbids. */
  predicate Near(r: int, c: int, i: int, j: int)
    ensures Near(r, c, i, j) <==> (i, j) in {(r - 1, c - 1), (r - 1, c), (r - 1, c + 1),
                                             (r, c - 1), (r, c), (r, c + 1),
                                             (r + 1, c - 1), (r + 1, c), (r + 1, c + 1)}
  {
    r - 1 <= i <= r + 1 && c - 1 <= j <= c + 1
  }

  /** The mask has the same ragged shape as the shape grid. */
  predicate Fits(m: Mask, shape: Shape)
  {
    |m| == |shape| && forall i :: 0 <= i < |shape| ==> |m[i]| == |shape[i]|
  }

  /** A mask of the grid's shape with every entry false. */
  function Blank(shape: Shape): (m: Mask)
    ensures Fits(m, shape)
    ensures forall i, j :: !At(m, i, j)
  {
    seq(|shape|, i requires 0 <= i < |shape| => seq(|shape[i]|, _ => false))
  }

  /** The set of true entries of a mask. */
  ghost function TrueCells(m: Mask): set<Cell>
  {
    set i, j | 0 <= i < |m| && 0 <= j < |m[i]| && m[i][j] :: (i, j)
  }

  lemma TrueCellsMembers(m: Mask, i: int, j: int)
    ensures (i, j) in TrueCells(m) <==> At(m, i, j)
  {
    if At(m, i, j) {
      assert (i, j) in TrueCells(m);
    }
  }

  /** The playable cells of row r among its first k columns, left to right. */
  function RowCells(shape: Shape, r: nat, k: nat): seq<Cell>
    requires r < |shape| && k <= |shape[r]|
  {
    if k == 0 then []
    else RowCells(shape, r, k - 1) + (if shape[r][k - 1] == 1 then [(r, k - 1)] else [])
  }

  /** The playable cells of the first n rows, in row-major order. */
  function CellsUpTo(shape: Shape, n: nat): seq<Cell>
    requires n <= |shape|
  {
    if n == 0 then [] else CellsUpTo(shape, n - 1) + RowCells(shape, n - 1, |shape[n - 1]|)
  }

  /** All playable cells, in the row-major order in which the engine visits them. */
  function ValidCells(shape: Shape): seq<Cell>
  {
    CellsUpTo(shape, |shape|)
  }

  /** No cell occurs twice. */
  predicate Distinct(s: seq<Cell>)
  {
    forall a, b :: 0 <= a < b < |s| ==> s[a] != s[b]
  }

  lemma {:induction false} RowCellsMembers(shape: Shape, r: nat, k: nat, i: int, j: int)
    requires r < |shape| && k <= |shape[r]|
    ensures (i, j) in RowCells(shape, r, k) <==> i == r && 0 <= j < k && shape[r][j] == 1
  {
    if k > 0 {
      RowCellsMembers(shape, r, k - 1, i, j);
    }
  }

  lemma {:induction false} CellsUpToMembers(shape: Shape, n: nat, i: int, j: int)
    requires n <= |shape|
    ensures (i, j) in CellsUpTo(shape, n) <==> i < n && InBounds(shape, i, j)
  {
    if n > 0 {
      CellsUpToMembers(shape, n - 1, i, j);
      RowCellsMembers(shape, n - 1, |shape[n - 1]|, i, j);
    }
  }

  /** The cell list holds exactly the playable cells. */
  lemma ValidCellsMembers(shape: Shape, i: int, j: int)
    ensures (i, j) in ValidCells(shape) <==> InBounds(shape, i, j)
  {
    CellsUpToMembers(shape, |shape|, i, j);
  }

  lemma DistinctConcat(a: seq<Cell>, b: seq<Cell>)
    requires Distinct(a) && Distinct(b)
    requires forall x :: x in a ==> x !in b
    ensures Distinct(a + b)
  {
    forall p, q | 0 <= p < q < |a + b|
      ensures (a + b)[p] != (a + b)[q]
    {
      if q >= |a| && p < |a| {
        assert (a + b)[p] in a;
        assert (a + b)[q] == b[q - |a|];
      }
    }
  }

  lemma {:induction false} RowCellsDistinct(shape: Shape, r: nat, k: nat)
    requires r < |shape| && k <= |shape[r]|
    ensures Distinct(RowCells(shape, r, k))
  {
    if k > 0 {
      RowCellsDistinct(shape, r, k - 1);
      var left, last := RowCells(shape, r, k - 1), if shape[r][k - 1] == 1 then [(r, k - 1)] else [];
      forall x | x in left
        ensures x !in last
      {
        RowCellsMembers(shape, r, k - 1, x.0, x.1);
      }
      DistinctConcat(left, last);
    }
  }

  lemma {:induction false} CellsUpToDistinct(shape: Shape, n: nat)
    requires n <= |shape|
    ensures Distinct(CellsUpTo(shape, n))
  {
    if n > 0 {
      CellsUpToDistinct(shape, n - 1);
      RowCellsDistinct(shape, n - 1, |shape[n - 1]|);
      var upper, row := CellsUpTo(shape, n - 1), RowCells(shape, n - 1, |shape[n - 1]|);
      forall x | x in upper
        ensures x !in row
      {
        CellsUpToMembers(shape, n - 1, x.0, x.1);
        RowCellsMembers(shape, n - 1, |shape[n - 1]|, x.0, x.1);
      }
      DistinctConcat(upper, row);
    }
  }

  /** No playable cell is listed twice. */
  lemma ValidCellsDistinct(shape: Shape)
    ensures Distinct(ValidCells(shape))
  {
    CellsUpToDistinct(shape, |shape|);
  }

  /** The engine's walk over the shape (forEachCell) collecting every
      playable cell: the result is the row-major cell list. */
  method CollectValidCells(shape: Shape) returns (cells: seq<Cell>)
    ensures cells == ValidCells(shape)
  {
    cells := [];
    var r := 0;
    while r < |shape|
      invariant 0 <= r <= |shape|
      invariant cells == CellsUpTo(shape, r)
    {
      var c := 0;
      while c < |shape[r]|
        invariant 0 <= c <= |shape[r]|
        invariant cells == CellsUpTo(shape, r) + RowCells(shape, r, c)
      {
        if shape[r][c] == 1 {
          cells := cells + [(r, c)];
        }
        c := c + 1;
      }
      r := r + 1;
    }
  }

  /** The number of mines of a board with n playable cells: the integer
      form of ceil(n * 0.15), that is, the least k with 20 * k >= 3 * n. */
  function MineCountFor(n: nat): (k: nat)
    ensures 20 * k >= 3 * n
    ensures k == 0 || 20 * (k - 1) < 3 * n
  {
    (3 * n + 19) / 20
  }
}
