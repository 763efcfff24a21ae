# Minesweeper engine on irregular boards

This project models the game engine of `js/minesplay.js` in Dafny. The engine plays Minesweeper on an
irregular board: a ragged grid of 0/1 entries, the `shapeGrid`, in which only the entries equal to 1
are playable cells. The page around the engine (the DOM, the map catalogue, the mode buttons) is not
modelled.

The model has four modules:

- `Grid` (`grid.dfy`) holds the board geometry:
  - the shape and the three boolean masks laid over it (mines, revealed, flagged);
  - `InBounds`, the source's `inBounds`;
  - `At`, a mask lookup that reads every missing index as false, like the source's `m[r]?.[c]`;
  - the row-major list of playable cells that `forEachCell` walks;
  - `MineCountFor`, the integer form of `Math.ceil(n * 0.15)`.
- `Rules` (`rules.dfy`) holds the rules as functions of the board, with lemmas about them:
  - the 3x3 mine count, centre included;
  - the cells eligible for a mine after the first click;
  - the count of revealed safe cells that `checkWin` compares;
  - the flags in use, shown on the counter.
- `Flood` (`flood.dfy`) states what one flood reveal does to the revealed mask. These are relations
  between the mask before and after a call, with lemmas that chain them through the recursion.
- `Minesplay` (`minesplay.dfy`) holds the class `Engine`:
  - its fields are the source's globals (`mineGrid`, `revealed`, `flagged`, `validCells`,
    `MINE_COUNT`, `gameOver`, `minesPlaced`, `timer`), plus whether the interval is running, the
    counter display and the status line;
  - its methods are `loadMode`, `restart`, `placeMinesSafe`, `countMines`, `revealCell`, `checkWin`,
    `handleClick` and `handleRightClick`;
  - `Valid()` is the invariant every round keeps. Among other things, no cell is both revealed and
    flagged.

`revealCell` is a recursive method. Its termination measure is the set of playable cells not yet
revealed. Its contract bounds the flood from both sides:
- every zero cell it opens has its whole block opened;
- every mask that is closed in that sense and holds the clicked cell holds everything the flood
  opened.

So the flood is the least closed mask, and `Flood.FloodUnique` proves it is determined by the board.
A cell showing a number opens alone (`Flood.FloodNumbered`). `placeMinesSafe` receives the shuffled order of the eligible cells as a parameter, so any
permutation is covered.

The first click places at most `MINE_COUNT` mines: the first `min(MINE_COUNT, eligible)` cells of the
shuffle. The win test compares the revealed safe cells with `validCells.length - MINE_COUNT`. With
exactly `MINE_COUNT` mines, this holds exactly when every safe cell is revealed
(`Rules.WinIffAllSafeRevealed`). With fewer mines, revealing every safe cell overshoots the target
(`Rules.ShortfallWin`). `Minesplay.ThreeCellRound` plays one such board to the end: a row of three
cells, clicked first in the middle. No mine can be placed, all three cells open, and the round keeps
running.

## Model

| member | source | states |
|---|---|---|
| Grid.InBounds | js/minesplay.js:93-99 | a cell is playable exactly when the walk of its row in forEachCell visits it, so the `=== 1` test and the truthiness test agree |
| Grid.Near | js/minesplay.js:139-142 | the 3x3 block around a cell is exactly the nine keys the nested offset loop adds to the forbidden set |
| Grid.Blank | js/minesplay.js:129-131 | the fresh mask has the ragged shape of the shape grid and no true entry |
| Grid.ValidCellsMembers | js/minesplay.js:93-99 | a cell is in the cell list exactly when its row exists, its column exists in that row and the entry is 1; any other index, negative ones included, is not |
| Grid.ValidCellsDistinct | js/minesplay.js:97-99 | the walk over the shape lists no cell twice |
| Grid.CollectValidCells | js/minesplay.js:123-124 | the nested walk pushing every playable cell produces exactly the row-major cell list |
| Grid.MineCountFor | js/minesplay.js:126 | MINE_COUNT is the least k with 20k >= 3n, that is, the ceiling of 0.15 n |
| Rules.MinesAround | js/minesplay.js:154-159 | the shown number is the sum of the nine lookups of the block, centre included, each counting 1 for a mine and 0 for a missing index |
| Rules.MinesAroundRange | js/minesplay.js:154-159 | the 3x3 count is at most 9, and at most 8 when the centre holds no mine |
| Rules.MinesAroundZero | js/minesplay.js:154-159 | the count is zero exactly when no cell of the block, centre included, holds a mine |
| Rules.Eligible | js/minesplay.js:139-145 | a cell is eligible exactly when it is listed and lies outside the 3x3 block around the first click; a list without repetitions stays without them |
| Rules.ShuffledEligible | js/minesplay.js:144-146 | any shuffle of the eligible cells has no repetitions, has their number, and holds only playable cells outside the block |
| Rules.PlantOne | js/minesplay.js:148 | setting one entry adds exactly that cell to the mined cells |
| Rules.PlantedPrefix | js/minesplay.js:144-148 | mining the first k cells of a shuffle puts exactly k mines on the board, all on playable cells outside the block |
| Rules.CountRevealedSafe | js/minesplay.js:189-193 | the count of revealed safe cells of a list never exceeds its length, and equals it exactly when every listed cell is revealed and holds no mine |
| Rules.CountRevealedSafeStep | js/minesplay.js:191-193 | visiting one more column adds one exactly when that cell is playable, revealed and not a mine |
| Rules.RevealedSafeBound | js/minesplay.js:188-195 | the revealed safe cells never outnumber the safe cells, and equal them exactly when every safe cell is revealed |
| Rules.SafeCount | js/minesplay.js:191-195 | in a list without repetitions the safe cells are its length minus its mined cells |
| Rules.SafeCellsOnBoard | js/minesplay.js:191-195 | with every mine on a playable cell, the safe playable cells are the playable cells minus the mines on the board |
| Rules.WinIffAllSafeRevealed | js/minesplay.js:188-199 | with k mines on the board, the win test against k holds exactly when every safe playable cell is revealed |
| Rules.ShortfallWin | js/minesplay.js:144-148 | with fewer than k mines placed, once every safe cell is revealed the count exceeds playable cells minus k, so the win test fails |
| Rules.FlagsUsed | js/minesplay.js:235 | the flags in use are the number of true entries of the mask |
| Rules.Toggled | js/minesplay.js:231 | the toggled mask has the same shape and differs from the old one exactly at the toggled cell |
| Rules.FlagsUsedNone | js/minesplay.js:131 | a mask without flags has none in use, so the counter starts at MINE_COUNT |
| Rules.FlagsUsedToggled | js/minesplay.js:231-236 | toggling one flag changes the flags in use by exactly one, down when it was set and up when it was not |
| Rules.ToggledTwice | js/minesplay.js:231 | toggling the same flag twice restores the mask |
| Flood.UnrevealedShrinks | js/minesplay.js:163-166 | a reveal that only adds cells never enlarges the set of hidden playable cells, the termination measure |
| Flood.NothingOpened | js/minesplay.js:164 | the early return of revealCell satisfies every flood guarantee |
| Flood.OpenedFirst | js/minesplay.js:166-183 | marking the cell and then flooding from it gives the flood guarantees for the whole call |
| Flood.Chain | js/minesplay.js:176-183 | the flood guarantees of successive recursive calls compose |
| Flood.LeastFirst | js/minesplay.js:164-183 | revealing a hidden cell and then, only when it shows zero, flooding its block opens nothing beyond the least closed mask holding the cell; a numbered cell stops the recursion |
| Flood.LeastVisit | js/minesplay.js:178-183 | the flood from one playable cell of a zero cell's block stays within every closed mask holding that block |
| Flood.LeastAroundChain | js/minesplay.js:176-183 | the visits of the block walk stay together within every closed mask holding the block |
| Flood.FloodUnique | js/minesplay.js:163-183 | two masks that both meet the flood guarantees from the same cell and the same revealed mask are equal: the flood is determined |
| Flood.FloodNumbered | js/minesplay.js:166-174 | a hidden, unflagged, safe cell showing a number floods to the old mask with that one cell revealed |
| Flood.RevealsStaySafe | js/minesplay.js:164-166 | a flood that opens only safe, unflagged cells keeps every revealed cell safe and none of them flagged |
| Minesplay.MinePrefix | js/minesplay.js:147-148 | the mined mask fits the shape and its true entries are exactly the first k cells of the shuffle |
| Minesplay.Engine.constructor | js/minesplay.js:22-28 | the engine starts with an empty shape, no round over, no mines placed and the timer at 0 |
| Minesplay.Engine.Load | js/minesplay.js:86-89 | loadMode installs the shape and restarts the round on it; on an empty shape masks, cell list, MINE_COUNT and counter are untouched |
| Minesplay.Engine.Restart | js/minesplay.js:112-134 | the timer stops at 0 and the outcome is cleared; on a non-empty shape the three masks are blank and the counter shows MINE_COUNT; on an empty shape masks, cell list and MINE_COUNT are untouched |
| Minesplay.Engine.NewBoard | js/minesplay.js:123-131 | the cell list is the shape's playable cells, MINE_COUNT follows their number and the three masks are blank |
| Minesplay.Engine.Tick | js/minesplay.js:104-106 | one interval tick adds 1 to the timer while the interval runs, and nothing otherwise; the round invariant survives it |
| Minesplay.Engine.PlaceMinesSafe | js/minesplay.js:138-152 | the mines are exactly the first min(MINE_COUNT, eligible) cells of the shuffle, all playable and outside the block around the click; there are min(MINE_COUNT, eligible) of them; mines are placed and the timer runs |
| Minesplay.Engine.CountMines | js/minesplay.js:154-159 | the nested loop returns the 3x3 mine count, centre included, indices off the grid skipped |
| Minesplay.Engine.RevealCell | js/minesplay.js:163-184 | no change when the round is over or the cell is revealed or flagged; otherwise the cell is revealed, only hidden cells are opened, each opened cell is playable, unflagged and safe, every opened zero cell has its whole playable unflagged block open, nothing opens outside the least such mask, a numbered cell opens alone, and only the revealed mask changes |
| Minesplay.Engine.RevealAround | js/minesplay.js:176-183 | from a zero cell, every playable unflagged cell of its block ends revealed, safely and with the same closure, and nothing opens outside the least closed mask holding the block |
| Minesplay.Engine.Visit | js/minesplay.js:178-183 | one step of the block walk reveals the cell when it is playable and unflagged, extends the revealed part of the block by that cell, and opens nothing outside the least closed mask holding the block |
| Minesplay.Engine.CountRevealedSafeCells | js/minesplay.js:189-193 | the walk counts the playable cells that are revealed and hold no mine |
| Minesplay.Engine.CheckWin | js/minesplay.js:188-200 | the round ends as won, with the timer stopped, exactly when the revealed safe cells number the playable cells minus MINE_COUNT; otherwise nothing changes |
| Minesplay.Engine.Click | js/minesplay.js:204-225 | nothing changes once the round is over; a first click places the mines away from the clicked cell and never loses; a mine ends the round as lost with revealed and flagged unchanged; a safe cell is flood-revealed, exactly the least closed mask from it and nothing more, and the win test decides the outcome |
| Minesplay.Engine.Uncover | js/minesplay.js:209-224 | with mines placed, a mine loses and stops the timer; any other cell is flood-revealed, exactly the least closed mask from it, and then checked for a win |
| Minesplay.Engine.RightClick | js/minesplay.js:227-237 | nothing changes when the round is over or the cell is revealed; otherwise only that flag flips and the counter moves by one, to MINE_COUNT minus the flags in use, which may be negative; a revealed cell never becomes flagged |
| Minesplay.RightClickTwice | js/minesplay.js:229-231 | two right clicks on one cell restore the flags and the counter |
| Minesplay.ThreeCellBoard | js/minesplay.js:123-126 | a row of three playable cells lists all three and has MINE_COUNT 1 |
| Minesplay.ThreeCellsNear | js/minesplay.js:139-145 | when the middle of that row is clicked first, no cell is eligible for a mine |
| Minesplay.ThreeCellsCounted | js/minesplay.js:191-193 | with all three cells revealed and no mine, three revealed safe cells are counted |
| Minesplay.ThreeCellRound | js/minesplay.js:144-148 | on the three-cell row the first click places no mine and reveals every cell, and the round stays in play with the timer running, because 3 differs from 3 - 1 |

## Left out

- The page is not modelled: URL parameters (js/minesplay.js:13-18), the map catalogue fetch (js/minesplay.js:32-58), `renderModes`, `createBoard`, cell lookups, emoji, text and CSS updates, and the `cell` and event arguments of the handlers. The status line becomes the `Status` value and the counter display becomes the `counter` field.
- The display of every mine after a loss (js/minesplay.js:215-219) only writes text into cells and is not modelled.
- `setInterval` and `clearInterval` are asynchronous wall-clock behaviour. They become the `ticking` flag, and one callback becomes `Tick`.
- `Math.random` inside `sort` is not modelled. The shuffle is the `order` parameter, an arbitrary permutation of the eligible cells. Nothing is said about its distribution.
- `Math.ceil(n * 0.15)` is floating point. It is modelled as its integer form `(3n + 19) / 20`.
- `mineGrid` holds the numbers 0 and 1. It is modelled as a boolean mask, because the engine only tests its truthiness.
- Clicks on cells that are not playable: `createBoard` attaches handlers only to playable cells, so `Click` and `RightClick` require `InBounds`.
- js/mines.js is not part of this model. It only fetches the map list and renders the gallery.
