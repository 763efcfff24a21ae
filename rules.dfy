/** The game rules as functions of the board state: counting the mines of a
    3x3 block, the cells eligible for mines around the first click, the
    win count, and the flag counter. */
module Rules {
  import opened Grid

  // ---------------------------------------------------------------------
  // Mines around a cell
  // ---------------------------------------------------------------------

  /** Mines among the first k cells (k <= 3) of row r, starting at column c - 1. */
  function RowMines(m: Mask, r: int, c: int, k: nat): nat
    requires k <= 3
  {
    if k == 0 then 0 else RowMines(m, r, c, k - 1) + Count(At(m, r, c - 2 + k))
  }

  /** Mines in the first k rows (k <= 3) of the 3x3 block centred on (r, c). */
  function BlockMines(m: Mask, r: int, c: int, k: nat): nat
    requires k <= 3
  {
    if k == 0 then 0 else BlockMines(m, r, c, k - 1) + RowMines(m, r - 2 + k, c, 3)
  }

  /** The number the engine shows on (r, c): the mines of the 3x3 block
      centred on it, the centre included, indices outside the mask skipped. */
  function MinesAround(m: Mask, r: int, c: int): (n: nat)
    ensures n == Count(At(m, r - 1, c - 1)) + Count(At(m, r - 1, c)) + Count(At(m, r - 1, c + 1))
               + Count(At(m, r, c - 1)) + Count(At(m, r, c)) + Count(At(m, r, c + 1))
               + Count(At(m, r + 1, c - 1)) + Count(At(m, r + 1, c)) + Count(At(m, r + 1, c + 1))
  {
    RowMinesUnfold(m, r - 1, c);
    RowMinesUnfold(m, r, c);
    RowMinesUnfold(m, r + 1, c);
    assert BlockMines(m, r, c, 1) == RowMines(m, r - 1, c, 3);
    assert BlockMines(m, r, c, 2) == BlockMines(m, r, c, 1) + RowMines(m, r, c, 3);
    BlockMines(m, r, c, 3)
  }

  function Count(b: bool): nat
  {
    if b then 1 else 0
  }

  lemma RowMinesUnfold(m: Mask, r: int, c: int)
    ensures RowMines(m, r, c, 3)
            == Count(At(m, r, c - 1)) + Count(At(m, r, c)) + Count(At(m, r, c + 1))
  {
    assert RowMines(m, r, c, 1) == Count(At(m, r, c - 1));
    assert RowMines(m, r, c, 2) == RowMines(m, r, c, 1) + Count(At(m, r, c));
  }

  /** The shown number is at most 9, and at most 8 on a cell that is not a mine. */
  lemma MinesAroundRange(m: Mask, r: int, c: int)
    ensures MinesAround(m, r, c) <= 9
    ensures !At(m, r, c) ==> MinesAround(m, r, c) <= 8
  {
  }

  /** A zero count means no mine anywhere in the 3x3 block, and conversely. */
  lemma MinesAroundZero(m: Mask, r: int, c: int)
    ensures MinesAround(m, r, c) == 0 <==> forall i, j :: Near(r, c, i, j) ==> !At(m, i, j)
  {
  }

  // ---------------------------------------------------------------------
  // Cells eligible for mines
  // ---------------------------------------------------------------------

  /** The cells of the list outside the 3x3 block around the first click
      (sr, sc), in list order. */
  function Eligible(cells: seq<Cell>, sr: int, sc: int): (e: seq<Cell>)
    ensures forall x :: x in e <==> x in cells && !Near(sr, sc, x.0, x.1)
    ensures Distinct(cells) ==> Distinct(e)
  {
    if cells == [] then []
    else
      var rest := Eligible(cells[1..], sr, sc);
      assert forall x :: x in cells[1..] ==> x in cells;
      if Near(sr, sc, cells[0].0, cells[0].1) then rest
      else
        assert Distinct(cells) ==> cells[0] !in cells[1..];
        [cells[0]] + rest
  }

  /** A cell occurring twice in a list occurs at least twice in its multiset. */
  lemma RepeatedCount(s: seq<Cell>, p: nat, q: nat)
    requires p < q < |s| && s[p] == s[q]
    ensures multiset(s)[s[p]] >= 2
  {
    assert s == s[..p] + [s[p]] + s[p + 1..q] + [s[q]] + s[q + 1..];
  }

  /** A rearrangement of a list without repetitions has none either. */
  lemma {:induction false} PermutationDistinct(a: seq<Cell>, b: seq<Cell>)
    requires Distinct(a) && multiset(a) == multiset(b)
    ensures Distinct(b)
  {
    forall p, q | 0 <= p < q < |b|
      ensures b[p] != b[q]
    {
      if b[p] == b[q] {
        RepeatedCount(b, p, q);
        SingleCount(a, b[p]);
        assert false;
      }
    }
  }

  lemma {:induction false} SingleCount(a: seq<Cell>, x: Cell)
    requires Distinct(a)
    ensures multiset(a)[x] <= 1
  {
    if a != [] {
      var init := a[..|a| - 1];
      assert a == init + [a[|a| - 1]];
      assert Distinct(init);
      SingleCount(init, x);
      if a[|a| - 1] == x {
        assert x !in init;
      }
    }
  }

  /** A list without repetitions has as many distinct members as entries. */
  lemma {:induction false} DistinctCard(s: seq<Cell>)
    requires Distinct(s)
    ensures |set x | x in s| == |s|
  {
    if s != [] {
      var init := s[..|s| - 1];
      assert Distinct(init);
      DistinctCard(init);
      assert (set x | x in s) == (set x | x in init) + {s[|s| - 1]};
      assert s[|s| - 1] !in init;
    }
  }

  /** A mask whose true entries are exactly the cells of a list without
      repetitions has as many true entries as the list has cells. */
  lemma PlantedCount(m: Mask, s: seq<Cell>)
    requires Distinct(s)
    requires forall i, j :: At(m, i, j) <==> (i, j) in s
    ensures |TrueCells(m)| == |s|
  {
    DistinctCard(s);
    forall x
      ensures x in TrueCells(m) <==> x in set y | y in s
    {
      TrueCellsMembers(m, x.0, x.1);
    }
    assert TrueCells(m) == set y | y in s;
  }

  /** A mask without any true entry. */
  ghost predicate Empty(m: Mask)
  {
    forall i, j {:trigger At(m, i, j)} :: !At(m, i, j)
  }

  /** Every mine lies on a playable cell. */
  ghost predicate MinesOnBoard(shape: Shape, mines: Mask)
  {
    forall i, j {:trigger At(mines, i, j)} :: At(mines, i, j) ==> InBounds(shape, i, j)
  }

  /** A shuffle of the eligible cells has no repetitions and holds only
      playable cells outside the 3x3 block around (sr, sc). */
  lemma ShuffledEligible(shape: Shape, sr: int, sc: int, order: seq<Cell>)
    requires multiset(order) == multiset(Eligible(ValidCells(shape), sr, sc))
    ensures Distinct(order) && |order| == |Eligible(ValidCells(shape), sr, sc)|
    ensures forall x :: x in order ==> InBounds(shape, x.0, x.1) && !Near(sr, sc, x.0, x.1)
  {
    var e := Eligible(ValidCells(shape), sr, sc);
    ValidCellsDistinct(shape);
    PermutationDistinct(e, order);
    assert |multiset(order)| == |multiset(e)|;
    forall x | x in order
      ensures InBounds(shape, x.0, x.1) && !Near(sr, sc, x.0, x.1)
    {
      assert x in multiset(order);
      assert x in e;
      ValidCellsMembers(shape, x.0, x.1);
    }
  }

  /** Setting one entry of a mask whose true entries are the cells of s
      makes its true entries the cells of s + [x]. */
  lemma PlantOne(m: Mask, n: Mask, s: seq<Cell>, x: Cell)
    requires 0 <= x.0 < |m| && 0 <= x.1 < |m[x.0]| && n == m[x.0 := m[x.0][x.1 := true]]
    requires forall i, j {:trigger At(m, i, j)} :: At(m, i, j) <==> (i, j) in s
    ensures forall i, j {:trigger At(n, i, j)} :: At(n, i, j) <==> (i, j) in s + [x]
  {
    forall i, j
      ensures At(n, i, j) <==> (i, j) in s + [x]
    {
      assert At(m, i, j) <==> (i, j) in s;
    }
  }

  /** Mining the first k cells of a shuffle of the eligible cells puts
      exactly k mines on the board, all on playable cells outside the
      3x3 block around (sr, sc). */
  lemma PlantedPrefix(shape: Shape, sr: int, sc: int, order: seq<Cell>, k: nat, m: Mask)
    requires multiset(order) == multiset(Eligible(ValidCells(shape), sr, sc))
    requires k <= |order|
    requires forall i, j {:trigger At(m, i, j)} :: At(m, i, j) <==> (i, j) in order[..k]
    ensures forall i, j {:trigger At(m, i, j)} :: At(m, i, j) ==> InBounds(shape, i, j) && !Near(sr, sc, i, j)
    ensures |TrueCells(m)| == k
  {
    ShuffledEligible(shape, sr, sc, order);
    forall i, j | At(m, i, j)
      ensures InBounds(shape, i, j) && !Near(sr, sc, i, j)
    {
      assert (i, j) in order;
    }
    assert Distinct(order[..k]);
    PlantedCount(m, order[..k]);
  }

  function Min(a: int, b: int): int
  {
    if a < b then a else b
  }

  // ---------------------------------------------------------------------
  // Counting cells for the win test
  // ---------------------------------------------------------------------

  /** Listed cells that are revealed and not mines (checkWin's revealedSafe). */
  function CountRevealedSafe(cells: seq<Cell>, revealed: Mask, mines: Mask): (n: nat)
    ensures n <= |cells|
    ensures n == |cells| <==> forall x :: x in cells ==> At(revealed, x.0, x.1) && !At(mines, x.0, x.1)
  {
    if cells == [] then 0
    else
      var x := cells[|cells| - 1];
      assert forall y :: y in cells <==> y in cells[..|cells| - 1] || y == x;
      CountRevealedSafe(cells[..|cells| - 1], revealed, mines)
        + (if At(revealed, x.0, x.1) && !At(mines, x.0, x.1) then 1 else 0)
  }

  /** Listed cells that are not mines. */
  function CountSafe(cells: seq<Cell>, mines: Mask): nat
  {
    if cells == [] then 0
    else
      var x := cells[|cells| - 1];
      CountSafe(cells[..|cells| - 1], mines) + (if At(mines, x.0, x.1) then 0 else 1)
  }

  /** Appending one cell adds its own contribution. */
  lemma CountRevealedSafeAppend(cells: seq<Cell>, x: Cell, revealed: Mask, mines: Mask)
    ensures CountRevealedSafe(cells + [x], revealed, mines)
            == CountRevealedSafe(cells, revealed, mines)
               + (if At(revealed, x.0, x.1) && !At(mines, x.0, x.1) then 1 else 0)
  {
    assert (cells + [x])[..|cells|] == cells;
  }

  /** checkWin's count once its walk has passed the first r rows and the
      first c columns of row r. */
  function CountSeen(shape: Shape, r: nat, c: nat, revealed: Mask, mines: Mask): nat
    requires r < |shape| && c <= |shape[r]|
  {
    CountRevealedSafe(CellsUpTo(shape, r) + RowCells(shape, r, c), revealed, mines)
  }

  /** One more column of checkWin's walk adds the contribution of (r, c)
      when it is playable. */
  lemma CountRevealedSafeStep(shape: Shape, r: nat, c: nat, revealed: Mask, mines: Mask)
    requires r < |shape| && c < |shape[r]|
    ensures CountSeen(shape, r, c + 1, revealed, mines)
            == CountSeen(shape, r, c, revealed, mines)
               + (if shape[r][c] == 1 && At(revealed, r, c) && !At(mines, r, c) then 1 else 0)
  {
    var seen := CellsUpTo(shape, r) + RowCells(shape, r, c);
    if shape[r][c] == 1 {
      assert CellsUpTo(shape, r) + RowCells(shape, r, c + 1) == seen + [(r, c)];
      CountRevealedSafeAppend(seen, (r, c), revealed, mines);
    } else {
      assert CellsUpTo(shape, r) + RowCells(shape, r, c + 1) == seen;
    }
  }

  /** Every listed cell that is not a mine is revealed. */
  predicate AllSafeRevealed(cells: seq<Cell>, revealed: Mask, mines: Mask)
  {
    forall x :: x in cells && !At(mines, x.0, x.1) ==> At(revealed, x.0, x.1)
  }

  /** The revealed safe cells never outnumber the safe cells, and reach
      their number exactly when every safe cell is revealed. */
  lemma {:induction false} RevealedSafeBound(cells: seq<Cell>, revealed: Mask, mines: Mask)
    ensures CountRevealedSafe(cells, revealed, mines) <= CountSafe(cells, mines)
    ensures CountRevealedSafe(cells, revealed, mines) == CountSafe(cells, mines)
            <==> AllSafeRevealed(cells, revealed, mines)
  {
    if cells != [] {
      var init := cells[..|cells| - 1];
      var x := cells[|cells| - 1];
      RevealedSafeBound(init, revealed, mines);
      assert cells == init + [x];
      assert forall y :: y in cells <==> y in init || y == x;
    }
  }

  /** The safe cells of a list without repetitions are its length minus
      the number of its cells that hold a mine. */
  lemma {:induction false} SafeCount(cells: seq<Cell>, mines: Mask)
    requires Distinct(cells)
    ensures CountSafe(cells, mines) == |cells| - |set x | x in cells && At(mines, x.0, x.1)|
  {
    if cells != [] {
      var init := cells[..|cells| - 1];
      var x := cells[|cells| - 1];
      assert Distinct(init);
      SafeCount(init, mines);
      assert x !in init;
      var before := set y | y in init && At(mines, y.0, y.1);
      var after := set y | y in cells && At(mines, y.0, y.1);
      assert cells == init + [x];
      if At(mines, x.0, x.1) {
        assert after == before + {x};
      } else {
        assert after == before;
      }
    }
  }

  /** With every mine on a playable cell, the safe playable cells are the
      playable cells minus the mines actually on the board. */
  lemma SafeCellsOnBoard(shape: Shape, mines: Mask)
    requires MinesOnBoard(shape, mines)
    ensures CountSafe(ValidCells(shape), mines) == |ValidCells(shape)| - |TrueCells(mines)|
  {
    var cells := ValidCells(shape);
    ValidCellsDistinct(shape);
    SafeCount(cells, mines);
    var onBoard := set y | y in cells && At(mines, y.0, y.1);
    forall x: Cell
      ensures x in onBoard <==> x in TrueCells(mines)
    {
      ValidCellsMembers(shape, x.0, x.1);
      TrueCellsMembers(mines, x.0, x.1);
    }
    assert onBoard == TrueCells(mines);
  }

  /** When k mines are on the board, the win test "revealed safe cells ==
      playable cells - k" holds exactly when every safe playable cell is
      revealed. */
  lemma WinIffAllSafeRevealed(shape: Shape, mines: Mask, revealed: Mask, k: int)
    requires MinesOnBoard(shape, mines) && |TrueCells(mines)| == k
    ensures CountRevealedSafe(ValidCells(shape), revealed, mines) == |ValidCells(shape)| - k
            <==> AllSafeRevealed(ValidCells(shape), revealed, mines)
  {
    SafeCellsOnBoard(shape, mines);
    RevealedSafeBound(ValidCells(shape), revealed, mines);
  }

  /** When fewer than k mines are on the board, the win test with k can
      hold only while some safe playable cell is still hidden: once all of
      them are revealed, the count has passed playable cells - k. */
  lemma ShortfallWin(shape: Shape, mines: Mask, revealed: Mask, k: int)
    requires MinesOnBoard(shape, mines) && |TrueCells(mines)| < k
    requires AllSafeRevealed(ValidCells(shape), revealed, mines)
    ensures CountRevealedSafe(ValidCells(shape), revealed, mines) > |ValidCells(shape)| - k
  {
    SafeCellsOnBoard(shape, mines);
    RevealedSafeBound(ValidCells(shape), revealed, mines);
  }

  // ---------------------------------------------------------------------
  // Flags
  // ---------------------------------------------------------------------

  /** The columns of the true entries of one row. */
  ghost function RowTrue(row: seq<bool>): set<int>
  {
    set j | 0 <= j < |row| && row[j]
  }

  /** True entries in one row. */
  function RowFlags(row: seq<bool>): (n: nat)
    ensures n == |RowTrue(row)|
  {
    if row == [] then 0
    else
      var k := |row| - 1;
      assert RowTrue(row) == RowTrue(row[..k]) + (if row[k] then {k} else {});
      RowFlags(row[..k]) + (if row[k] then 1 else 0)
  }

  /** The cells of row k whose columns are the members of s. */
  ghost function InRow(k: int, s: set<int>): set<Cell>
  {
    set j | j in s :: (k, j)
  }

  /** Pairing the true columns of a row with the row number k keeps their number. */
  lemma {:induction false} InRowCard(k: int, row: seq<bool>)
    ensures |InRow(k, RowTrue(row))| == |RowTrue(row)|
  {
    if row != [] {
      var last := |row| - 1;
      InRowCard(k, row[..last]);
      assert RowTrue(row) == RowTrue(row[..last]) + (if row[last] then {last} else {});
      assert InRow(k, RowTrue(row)) == InRow(k, RowTrue(row[..last])) + (if row[last] then {(k, last)} else {});
    }
  }

  /** The true entries of a mask are those of all rows but the last, and
      those of the last row. */
  lemma TrueCellsLast(f: Mask)
    requires f != []
    ensures TrueCells(f) == TrueCells(f[..|f| - 1]) + InRow(|f| - 1, RowTrue(f[|f| - 1]))
    ensures TrueCells(f[..|f| - 1]) !! InRow(|f| - 1, RowTrue(f[|f| - 1]))
  {
    var init, k := f[..|f| - 1], |f| - 1;
    forall x: Cell
      ensures x in TrueCells(f) <==> x in TrueCells(init) || x in InRow(k, RowTrue(f[k]))
      ensures x in TrueCells(init) ==> x.0 < k
    {
      TrueCellsMembers(f, x.0, x.1);
      TrueCellsMembers(init, x.0, x.1);
    }
  }

  /** True entries in the whole mask (flagged.flat().filter(Boolean).length). */
  function FlagsUsed(f: Mask): (n: nat)
    ensures n == |TrueCells(f)|
  {
    if f == [] then
      assert TrueCells(f) == {};
      0
    else
      TrueCellsLast(f);
      InRowCard(|f| - 1, f[|f| - 1]);
      FlagsUsed(f[..|f| - 1]) + RowFlags(f[|f| - 1])
  }

  lemma {:induction false} RowFlagsNone(row: seq<bool>)
    requires forall j :: 0 <= j < |row| ==> !row[j]
    ensures RowFlags(row) == 0
  {
    if row != [] {
      RowFlagsNone(row[..|row| - 1]);
    }
  }

  /** A mask with no true entry has no flags. */
  lemma {:induction false} FlagsUsedNone(f: Mask)
    requires forall i, j :: !At(f, i, j)
    ensures FlagsUsed(f) == 0
  {
    if f != [] {
      var init := f[..|f| - 1];
      assert forall i, j :: At(init, i, j) ==> At(f, i, j);
      FlagsUsedNone(init);
      var last := f[|f| - 1];
      forall j | 0 <= j < |last|
        ensures !last[j]
      {
        assert !At(f, |f| - 1, j);
      }
      RowFlagsNone(last);
    }
  }

  /** The mask with the entry at (r, c) negated. */
  function Toggled(f: Mask, r: int, c: int): (t: Mask)
    requires 0 <= r < |f| && 0 <= c < |f[r]|
    ensures |t| == |f| && forall i :: 0 <= i < |f| ==> |t[i]| == |f[i]|
    ensures forall i, j :: At(t, i, j) <==> if i == r && j == c then !At(f, i, j) else At(f, i, j)
  {
    f[r := f[r][c := !f[r][c]]]
  }

  lemma {:induction false} RowFlagsUpdate(row: seq<bool>, c: nat, b: bool)
    requires c < |row|
    ensures RowFlags(row[c := b]) + (if row[c] then 1 else 0) == RowFlags(row) + (if b then 1 else 0)
  {
    var init := row[..|row| - 1];
    if c == |row| - 1 {
      assert row[c := b][..|row| - 1] == init;
    } else {
      assert row[c := b][..|row| - 1] == init[c := b];
      RowFlagsUpdate(init, c, b);
    }
  }

  lemma {:induction false} FlagsUsedUpdate(f: Mask, r: nat, row: seq<bool>)
    requires r < |f|
    ensures FlagsUsed(f[r := row]) + RowFlags(f[r]) == FlagsUsed(f) + RowFlags(row)
  {
    var init := f[..|f| - 1];
    if r == |f| - 1 {
      assert f[r := row][..|f| - 1] == init;
    } else {
      assert f[r := row][..|f| - 1] == init[r := row];
      FlagsUsedUpdate(init, r, row);
    }
  }

  /** Flagging a cell raises the flag count by one, unflagging lowers it by one. */
  lemma FlagsUsedToggled(f: Mask, r: int, c: int)
    requires 0 <= r < |f| && 0 <= c < |f[r]|
    ensures FlagsUsed(Toggled(f, r, c)) == if f[r][c] then FlagsUsed(f) - 1 else FlagsUsed(f) + 1
  {
    RowFlagsUpdate(f[r], c, !f[r][c]);
    FlagsUsedUpdate(f, r, f[r][c := !f[r][c]]);
  }

  /** Toggling the same cell twice restores the mask. */
  lemma ToggledTwice(f: Mask, r: int, c: int)
    requires 0 <= r < |f| && 0 <= c < |f[r]|
    ensures Toggled(Toggled(f, r, c), r, c) == f
  {
    assert Toggled(f, r, c)[r] == f[r][c := !f[r][c]];
    assert f[r][c := !f[r][c]][c := f[r][c]] == f[r];
  }
}
