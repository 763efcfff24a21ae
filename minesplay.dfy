/** The Minesweeper engine over an irregular board: the round's state and
    the player actions (restart, first-click mine placement, flood reveal,
    win check, left and right click), without the page it draws on. */
module Minesplay {
  import opened Grid
  import opened Rules
  import opened Flood

  /** The status line of the page: empty while playing, then win or loss. */
  datatype Status = Playing | Won | Lost

  /** The forEach at the end of placeMinesSafe: starting from a mask
      without mines, set the entry of each of the first k cells of order. */
  method MinePrefix(m0: Mask, shape: Shape, order: seq<Cell>, k: nat) returns (m: Mask)
    requires Fits(m0, shape) && Empty(m0) && k <= |order|
    requires forall x :: x in order ==> InBounds(shape, x.0, x.1)
    ensures Fits(m, shape)
    ensures forall i, j {:trigger At(m, i, j)} :: At(m, i, j) <==> (i, j) in order[..k]
  {
    m := m0;
    var i := 0;
    while i < k
      invariant 0 <= i <= k
      invariant Fits(m, shape)
      invariant forall a, b {:trigger At(m, a, b)} :: At(m, a, b) <==> (a, b) in order[..i]
    {
      var cell := order[i];
      assert cell in order;
      var next := m[cell.0 := m[cell.0][cell.1 := true]];
      PlantOne(m, next, order[..i], cell);
      assert order[..i + 1] == order[..i] + [cell];
      m, i := next, i + 1;
    }
  }

  class Engine {
    var shape: Shape         // shapeGrid
    var mines: Mask          // mineGrid
    var revealed: Mask
    var flagged: Mask
    var validCells: seq<Cell>
    var mineCount: int       // MINE_COUNT
    var gameOver: bool
    var minesPlaced: bool
    var timer: nat
    var ticking: bool        // an interval is running
    var counter: int         // the remaining-mines display
    var status: Status

    /** The round's invariant. While the shape is empty no cell can be
        clicked and the masks are left as they were; otherwise no cell is
        both revealed and flagged. */
    ghost predicate Valid()
      reads this
    {
      (gameOver <==> status != Playing) &&
      (ticking <==> minesPlaced && !gameOver) &&
      (|shape| > 0 ==> Board() && Counters() && Placed() && Apart(revealed, flagged))
    }

    /** The masks fit the shape and the cell list is the shape's playable cells. */
    ghost predicate Board()
      reads this`shape, this`mines, this`revealed, this`flagged, this`validCells
    {
      Fits(mines, shape) && Fits(revealed, shape) && Fits(flagged, shape) &&
      validCells == ValidCells(shape)
    }

    /** MINE_COUNT follows the number of playable cells and the counter
        shows MINE_COUNT minus the flags in use. */
    ghost predicate Counters()
      reads this`validCells, this`mineCount, this`counter, this`flagged
    {
      mineCount == MineCountFor(|validCells|) &&
      counter == mineCount - FlagsUsed(flagged)
    }

    /** Mines lie on the board, revealed cells are safe, and before the
        first click there is neither a mine nor a revealed cell. */
    ghost predicate Placed()
      reads this`shape, this`mines, this`revealed, this`minesPlaced
    {
      MinesOnBoard(shape, mines) && RevealsSafe(shape, mines, revealed) &&
      (!minesPlaced ==> Empty(mines) && Empty(revealed))
    }

    /** The page before any map is loaded. */
    constructor ()
      ensures Valid() && shape == [] && !gameOver && !minesPlaced && timer == 0
    {
      shape, mines, revealed, flagged := [], [], [], [];
      validCells, mineCount := [], 0;
      gameOver, minesPlaced := false, false;
      timer, ticking, counter, status := 0, false, 0, Playing;
    }

    /** loadMode: take a new shape and restart the round on it. */
    method Load(grid: Shape)
      modifies this
      ensures Valid() && shape == grid
      ensures !gameOver && !minesPlaced && !ticking && timer == 0 && status == Playing
      ensures |grid| > 0 ==> Empty(mines) && Empty(revealed) && Empty(flagged) && counter == mineCount
      ensures |grid| == 0 ==> mines == old(mines) && revealed == old(revealed) && flagged == old(flagged)
                              && validCells == old(validCells) && mineCount == old(mineCount)
                              && counter == old(counter)
    {
      shape := grid;
      Restart();
    }

    /** restart: stop the timer, clear the outcome, and on a non-empty
        shape rebuild the cell list, the mine count and the three masks. */
    method Restart()
      modifies this`validCells, this`mineCount, this`mines, this`revealed, this`flagged
      modifies this`gameOver, this`minesPlaced, this`timer, this`ticking, this`counter, this`status
      ensures Valid() && shape == old(shape)
      ensures !gameOver && !minesPlaced && !ticking && timer == 0 && status == Playing
      ensures |shape| > 0 ==> Empty(mines) && Empty(revealed) && Empty(flagged) && counter == mineCount
      ensures |shape| == 0 ==> mines == old(mines) && revealed == old(revealed) && flagged == old(flagged)
                               && validCells == old(validCells) && mineCount == old(mineCount)
                               && counter == old(counter)
    {
      ticking := false;
      timer := 0;
      status := Playing;
      gameOver := false;
      minesPlaced := false;
      if |shape| == 0 {
        return;
      }
      NewBoard();
    }

    /** The rest of restart on a non-empty shape: list the playable cells,
        derive MINE_COUNT from their number, clear the three masks and
        show MINE_COUNT on the counter. */
    method NewBoard()
      requires |shape| > 0
      modifies this`validCells, this`mineCount, this`mines, this`revealed, this`flagged, this`counter
      ensures Board() && Counters() && Placed()
      ensures Empty(mines) && Empty(revealed) && Empty(flagged) && counter == mineCount
    {
      var cells := CollectValidCells(shape);
      var blank := Blank(shape);
      FlagsUsedNone(blank);
      validCells := cells;
      mineCount := MineCountFor(|cells|);
      mines, revealed, flagged := blank, blank, blank;
      counter := mineCount;
    }

    /** One tick of the running interval. */
    method Tick()
      requires Valid()
      modifies this`timer
      ensures Valid()
      ensures timer == if ticking then old(timer) + 1 else old(timer)
    {
      if ticking {
        timer := timer + 1;
      }
    }

    /** placeMinesSafe: mine the first Min(mineCount, |order|) cells of
        `order`, a shuffle of the playable cells outside the 3x3 block
        around the first click (sr, sc), then start the timer. */
    method PlaceMinesSafe(sr: int, sc: int, order: seq<Cell>)
      requires Valid() && InBounds(shape, sr, sc) && !minesPlaced && !gameOver
      requires multiset(order) == multiset(Eligible(validCells, sr, sc))
      modifies this`mines, this`minesPlaced, this`ticking
      ensures Valid() && minesPlaced && ticking
      ensures forall i, j :: At(mines, i, j) <==> (i, j) in order[..Min(mineCount, |order|)]
      ensures forall i, j :: At(mines, i, j) ==> InBounds(shape, i, j) && !Near(sr, sc, i, j)
      ensures |TrueCells(mines)| == Min(mineCount, |Eligible(validCells, sr, sc)|)
    {
      ShuffledEligible(shape, sr, sc, order);
      var k := Min(mineCount, |order|);
      var m := MinePrefix(mines, shape, order, k);
      PlantedPrefix(shape, sr, sc, order, k, m);
      mines := m;
      minesPlaced := true;
      ticking := true;
    }

    /** countMines: the mines of the 3x3 block around (r, c), centre
        included, rows and columns outside the grid skipped. */
    method CountMines(r: int, c: int) returns (n: nat)
      ensures n == MinesAround(mines, r, c)
    {
      n := 0;
      var dr := -1;
      while dr <= 1
        invariant -1 <= dr <= 2
        invariant n == BlockMines(mines, r, c, dr + 1)
      {
        var row, dc := r + dr, -1;
        while dc <= 1
          invariant -1 <= dc <= 2
          invariant n == BlockMines(mines, r, c, dr + 1) + RowMines(mines, r + dr, c, dc + 1)
        {
          if At(mines, r + dr, c + dc) {
            n := n + 1;
          }
          dc := dc + 1;
        }
        dr := dr + 1;
      }
    }

    /** revealCell: unless the round is over or (r, c) is revealed or
        flagged, reveal it; when it shows zero, reveal its playable
        neighbours the same way. */
    method RevealCell(r: int, c: int)
      requires Fits(revealed, shape) && Fits(flagged, shape)
      requires InBounds(shape, r, c) && !At(mines, r, c)
      modifies this`revealed
      ensures Grows(old(revealed), revealed)
      ensures old(gameOver || At(revealed, r, c) || At(flagged, r, c)) ==> revealed == old(revealed)
      ensures !gameOver && !At(flagged, r, c) ==> At(revealed, r, c)
      ensures OpenedSafely(shape, mines, flagged, old(revealed), revealed)
      ensures Closed(shape, mines, flagged, old(revealed), revealed)
      ensures Least(shape, mines, flagged, old(revealed), revealed, r, c)
      ensures !old(gameOver || At(revealed, r, c) || At(flagged, r, c)) && MinesAround(mines, r, c) != 0 ==>
                revealed == old(revealed)[r := old(revealed)[r][c := true]]
      decreases Unrevealed(shape, revealed), 0
    {
      if gameOver || revealed[r][c] || flagged[r][c] {
        NothingOpened(shape, mines, flagged, revealed);
        return;
      }
      ValidCellsMembers(shape, r, c);
      revealed := revealed[r := revealed[r][c := true]];
      ghost var start := revealed;
      assert Unrevealed(shape, start) == Unrevealed(shape, old(revealed)) - {(r, c)};
      var n := CountMines(r, c);
      if n == 0 {
        RevealAround(r, c);
      } else {
        NothingOpened(shape, mines, flagged, start);
      }
      OpenedFirst(shape, mines, flagged, old(revealed), start, revealed, r, c);
      LeastFirst(shape, mines, flagged, old(revealed), start, revealed, r, c);
    }

    /** The second half of revealCell for a cell showing zero: visit the
        3x3 block around (r, c) in row-major order. */
    method RevealAround(r: int, c: int)
      requires Fits(revealed, shape) && Fits(flagged, shape)
      requires !gameOver && MinesAround(mines, r, c) == 0
      modifies this`revealed
      ensures Grows(old(revealed), revealed)
      ensures OpenedSafely(shape, mines, flagged, old(revealed), revealed)
      ensures Closed(shape, mines, flagged, old(revealed), revealed)
      ensures NeighborsOpen(shape, flagged, revealed, r, c)
      ensures LeastAround(shape, mines, flagged, old(revealed), revealed, r, c)
      decreases Unrevealed(shape, revealed), 2
    {
      NothingOpened(shape, mines, flagged, revealed);
      var dr := -1;
      while dr <= 1
        invariant -1 <= dr <= 2
        invariant Fits(revealed, shape)
        invariant Grows(old(revealed), revealed)
        invariant OpenedSafely(shape, mines, flagged, old(revealed), revealed)
        invariant Closed(shape, mines, flagged, old(revealed), revealed)
        invariant OpenBefore(shape, flagged, revealed, r, c, r + dr, c - 1)
        invariant LeastAround(shape, mines, flagged, old(revealed), revealed, r, c)
        invariant Unrevealed(shape, revealed) <= Unrevealed(shape, old(revealed))
      {
        var dc := -1;
        while dc <= 1
          invariant -1 <= dc <= 2
          invariant Fits(revealed, shape)
          invariant Grows(old(revealed), revealed)
          invariant OpenedSafely(shape, mines, flagged, old(revealed), revealed)
          invariant Closed(shape, mines, flagged, old(revealed), revealed)
          invariant OpenBefore(shape, flagged, revealed, r, c, r + dr, c + dc)
          invariant LeastAround(shape, mines, flagged, old(revealed), revealed, r, c)
          invariant Unrevealed(shape, revealed) <= Unrevealed(shape, old(revealed))
        {
          ghost var before := revealed;
          Visit(r, c, r + dr, c + dc);
          Chain(shape, mines, flagged, old(revealed), before, revealed);
          LeastAroundChain(shape, mines, flagged, old(revealed), before, revealed, r, c);
          dc := dc + 1;
        }
        OpenBeforeRow(shape, flagged, revealed, r, c, r + dr);
        dr := dr + 1;
      }
    }

    /** One visit of the block walk around the zero cell (r, c): when
        (i, j) is playable, reveal it the same way. */
    method Visit(r: int, c: int, i: int, j: int)
      requires Fits(revealed, shape) && Fits(flagged, shape)
      requires !gameOver && MinesAround(mines, r, c) == 0 && Near(r, c, i, j)
      modifies this`revealed
      ensures Grows(old(revealed), revealed)
      ensures OpenedSafely(shape, mines, flagged, old(revealed), revealed)
      ensures Closed(shape, mines, flagged, old(revealed), revealed)
      ensures InBounds(shape, i, j) && !At(flagged, i, j) ==> At(revealed, i, j)
      ensures OpenBefore(shape, flagged, old(revealed), r, c, i, j) ==> OpenBefore(shape, flagged, revealed, r, c, i, j + 1)
      ensures LeastAround(shape, mines, flagged, old(revealed), revealed, r, c)
      ensures Unrevealed(shape, revealed) <= Unrevealed(shape, old(revealed))
      decreases Unrevealed(shape, revealed), 1
    {
      if InBounds(shape, i, j) {
        MinesAroundZero(mines, r, c);
        RevealCell(i, j);
        UnrevealedShrinks(shape, old(revealed), revealed);
        LeastVisit(shape, mines, flagged, old(revealed), revealed, r, c, i, j);
      } else {
        NothingOpened(shape, mines, flagged, revealed);
      }
      if OpenBefore(shape, flagged, old(revealed), r, c, i, j) {
        OpenBeforeStep(shape, flagged, old(revealed), revealed, r, c, i, j);
      }
    }

    /** checkWin's walk over the board: the playable cells that are
        revealed and hold no mine. */
    method CountRevealedSafeCells() returns (n: nat)
      requires Fits(revealed, shape) && Fits(mines, shape)
      ensures n == CountRevealedSafe(ValidCells(shape), revealed, mines)
    {
      n := 0;
      var r := 0;
      while r < |shape|
        invariant 0 <= r <= |shape|
        invariant n == CountRevealedSafe(CellsUpTo(shape, r), revealed, mines)
      {
        var c := 0;
        assert CellsUpTo(shape, r) + RowCells(shape, r, 0) == CellsUpTo(shape, r);
        while c < |shape[r]|
          invariant 0 <= c <= |shape[r]|
          invariant n == CountSeen(shape, r, c, revealed, mines)
        {
          CountRevealedSafeStep(shape, r, c, revealed, mines);
          assert At(revealed, r, c) == revealed[r][c] && At(mines, r, c) == mines[r][c];
          if shape[r][c] == 1 && revealed[r][c] && !mines[r][c] {
            n := n + 1;
          }
          c := c + 1;
        }
        r := r + 1;
      }
    }

    /** checkWin: the round is won, and the timer stopped, exactly when the
        revealed safe cells number the playable cells minus MINE_COUNT. */
    method CheckWin()
      requires Valid() && |shape| > 0 && !gameOver
      modifies this`gameOver, this`status, this`ticking
      ensures Valid()
      ensures gameOver <==> CountRevealedSafe(validCells, revealed, mines) == |validCells| - mineCount
      ensures gameOver ==> status == Won && !ticking
      ensures !gameOver ==> status == old(status) && ticking == old(ticking)
    {
      var safe := CountRevealedSafeCells();
      if safe == |validCells| - mineCount {
        gameOver := true;
        ticking := false;
        status := Won;
      }
    }

    /** handleClick on the playable cell (r, c). `order` stands for the
        shuffle the first click draws; it is used only while no mine is
        placed. */
    method Click(r: int, c: int, order: seq<Cell>)
      requires Valid() && InBounds(shape, r, c)
      requires !minesPlaced ==> multiset(order) == multiset(Eligible(validCells, r, c))
      modifies this`mines, this`minesPlaced, this`ticking, this`revealed, this`gameOver, this`status
      ensures Valid()
      ensures old(gameOver) ==> mines == old(mines) && revealed == old(revealed) && gameOver
                                && status == old(status) && ticking == old(ticking)
                                && minesPlaced == old(minesPlaced)
      ensures !old(gameOver) ==> minesPlaced
      ensures !old(gameOver) && old(minesPlaced) ==> mines == old(mines)
      ensures !old(gameOver) && !old(minesPlaced) ==>
                (forall i, j :: At(mines, i, j) <==> (i, j) in order[..Min(mineCount, |order|)])
                && !At(mines, r, c) && status != Lost
      ensures !old(gameOver) && At(mines, r, c) ==>
                gameOver && status == Lost && !ticking && revealed == old(revealed)
      ensures !old(gameOver) && !At(mines, r, c) ==>
                Flooded(shape, mines, flagged, old(revealed), revealed, r, c)
                && (gameOver <==> CountRevealedSafe(validCells, revealed, mines) == |validCells| - mineCount)
                && (gameOver ==> status == Won && !ticking)
                && (!gameOver ==> status == Playing && ticking)
    {
      if gameOver {
        return;
      }
      if !minesPlaced {
        PlaceMinesSafe(r, c, order);
        assert !Near(r, c, r, c) ==> !At(mines, r, c);
      }
      label placed:
      Uncover(r, c);
      assert old@placed(revealed) == old(revealed);
    }

    /** The rest of handleClick once the mines are placed: a mine ends the
        round as lost and stops the timer; any other cell is revealed,
        flooding from it, and the win test runs. */
    method Uncover(r: int, c: int)
      requires Valid() && InBounds(shape, r, c) && minesPlaced && !gameOver
      modifies this`ticking, this`revealed, this`gameOver, this`status
      ensures Valid()
      ensures At(mines, r, c) ==> gameOver && status == Lost && !ticking && revealed == old(revealed)
      ensures !At(mines, r, c) ==>
                Flooded(shape, mines, flagged, old(revealed), revealed, r, c)
                && (gameOver <==> CountRevealedSafe(validCells, revealed, mines) == |validCells| - mineCount)
                && (gameOver ==> status == Won && !ticking)
                && (!gameOver ==> status == Playing && ticking)
    {
      if mines[r][c] {
        gameOver := true;
        ticking := false;
        status := Lost;
        return;
      }
      ghost var before := revealed;
      RevealCell(r, c);
      assert Flooded(shape, mines, flagged, before, revealed, r, c);
      RevealsStaySafe(shape, mines, flagged, before, revealed);
      CheckWin();
    }

    /** handleRightClick on the playable cell (r, c): unless the round is
        over or the cell is revealed, toggle its flag and show MINE_COUNT
        minus the flags in use. */
    method RightClick(r: int, c: int)
      requires Valid() && InBounds(shape, r, c)
      modifies this`flagged, this`counter
      ensures Valid()
      ensures old(gameOver || revealed[r][c]) ==> flagged == old(flagged) && counter == old(counter)
      ensures !old(gameOver || revealed[r][c]) ==>
                flagged == Toggled(old(flagged), r, c)
                && counter == old(counter) + (if old(flagged[r][c]) then 1 else -1)
    {
      if gameOver || revealed[r][c] {
        return;
      }
      FlagsUsedToggled(flagged, r, c);
      flagged := Toggled(flagged, r, c);
      counter := mineCount - FlagsUsed(flagged);
    }
  }

  /** Two right clicks on the same cell leave the flags and the counter
      as they were. */
  method RightClickTwice(e: Engine, r: int, c: int)
    requires e.Valid() && InBounds(e.shape, r, c)
    modifies e`flagged, e`counter
    ensures e.Valid() && e.flagged == old(e.flagged) && e.counter == old(e.counter)
  {
    e.RightClick(r, c);
    e.RightClick(r, c);
    if !e.gameOver && !e.revealed[r][c] {
      ToggledTwice(old(e.flagged), r, c);
    }
  }

  /** The three-cell row: its cell list and its MINE_COUNT. */
  lemma ThreeCellBoard()
    ensures ValidCells([[1, 1, 1]]) == [(0, 0), (0, 1), (0, 2)]
    ensures MineCountFor(|ValidCells([[1, 1, 1]])|) == 1
  {
    var board: Shape := [[1, 1, 1]];
    assert RowCells(board, 0, 0) == [];
    assert RowCells(board, 0, 1) == [(0, 0)];
    assert RowCells(board, 0, 2) == [(0, 0), (0, 1)];
    assert RowCells(board, 0, 3) == [(0, 0), (0, 1), (0, 2)];
    assert CellsUpTo(board, 0) == [];
  }

  /** Clicking the middle of the three-cell row first leaves no cell
      eligible for a mine. */
  lemma ThreeCellsNear()
    ensures Eligible([(0, 0), (0, 1), (0, 2)], 0, 1) == []
  {
    var e := Eligible([(0, 0), (0, 1), (0, 2)], 0, 1);
    assert forall x :: x !in e;
  }

  /** With every cell of the three-cell row revealed and no mine, three
      revealed safe cells are counted. */
  lemma ThreeCellsCounted(revealed: Mask, mines: Mask)
    requires At(revealed, 0, 0) && At(revealed, 0, 1) && At(revealed, 0, 2)
    requires !At(mines, 0, 0) && !At(mines, 0, 1) && !At(mines, 0, 2)
    ensures CountRevealedSafe([(0, 0), (0, 1), (0, 2)], revealed, mines) == 3
  {
    CountRevealedSafeAppend([], (0, 0), revealed, mines);
    assert [] + [(0, 0)] == [(0, 0)];
    CountRevealedSafeAppend([(0, 0)], (0, 1), revealed, mines);
    assert [(0, 0)] + [(0, 1)] == [(0, 0), (0, 1)];
    CountRevealedSafeAppend([(0, 0), (0, 1)], (0, 2), revealed, mines);
    assert [(0, 0), (0, 1)] + [(0, 2)] == [(0, 0), (0, 1), (0, 2)];
  }

  /** A one-row board of three playable cells, first clicked in the
      middle. The 3x3 block around the click covers the whole board, so no
      mine is placed although MINE_COUNT is 1; the flood reveals all three
      cells, the win test compares 3 with 3 - 1 and fails, and the round
      keeps running with nothing left to reveal. */
  method ThreeCellRound() returns (e: Engine)
    ensures e.Valid() && e.mineCount == 1 && Empty(e.mines)
    ensures At(e.revealed, 0, 0) && At(e.revealed, 0, 1) && At(e.revealed, 0, 2)
    ensures !e.gameOver && e.status == Playing && e.ticking
  {
    ThreeCellBoard();
    ThreeCellsNear();
    e := new Engine();
    e.Load([[1, 1, 1]]);
    ghost var before := e.revealed;
    e.Click(0, 1, []);
    MinesAroundZero(e.mines, 0, 1);
    assert Opened(before, e.revealed, 0, 1);
    assert NeighborsOpen(e.shape, e.flagged, e.revealed, 0, 1);
    assert InBounds(e.shape, 0, 0) && !At(e.flagged, 0, 0) && Near(0, 1, 0, 0);
    assert InBounds(e.shape, 0, 2) && !At(e.flagged, 0, 2) && Near(0, 1, 0, 2);
    ThreeCellsCounted(e.revealed, e.mines);
  }
}
