# Minesweeper board

A Dafny model of the `MineBoard` class of `minesweeper.py`: an `h`-by-`w`
grid of integers, a game status (`Playing`, `Lose`, `Win`) and the number of
safe cells still to open.

Each cell is one packed integer:

- a hidden cell holds `-1` for a mine and otherwise the number of mines among its
  eight neighbours (`0..8`);
- revealing adds 10, so `9` is a revealed mine and `10..18` a revealed number;
- flagging adds 100, giving `99` or `100..108`.

The board asks the packed value four questions:

- hidden: `v < 9`;
- mine: `v % 10 == 9` (Dafny's `%` gives `-1 % 10 == 9`, the same as Python's);
- blank: `v % 10 == 0`;
- flagged: `v > 90`.

The project has three modules:

- `CellCode` (`cell_code.dfy`): the packed value and a tagged view of it,
  `Cell(state, mine, adjacent)`. `Encode` and `Decode` go between the two and are
  proved inverse. The lemmas prove that the four queries answer the tagged
  questions.
- `Layout` (`layout.dfy`): mine positions as a set of `(row, col)` pairs. It
  defines the neighbour count `NeighbourMines` and the value construction gives
  each cell (`Base`). It also defines the flat index `i` for the cell
  `(i / w, i % w)`.
- `Minesweeper` (`minesweeper.dfy`): `GameStatus` and the class `MineBoard`.
  - The grid is an `array2<int>` updated in place.
  - `status` and `cellsToOpen` are mutable fields.
  - The mine set is a ghost constant fixed by the constructor.
  - The class invariant `Valid()` says that every cell holds the value
    construction gave it, either as it was, plus 10 or plus 100.
  - Every operation preserves `Valid()`. That is how the model shows that
    `hasMine` and the adjacency count of a cell never change after construction.

The queries are predicates that make the same tests as the source:

- `IsValidCell` compares the indices with the dimensions `h` and `w`;
- `IsHidden`, `HasMine`, `IsBlank` and `IsFlagged` read one cell of the grid;
- `LoseGame` and `WinGame` read `status`.

The lemma `QueriesMean` gives the meaning of the four cell queries on a valid
board.

`click` is the recursive method `Click`. Its flood fill (the two nested loops of
`click`) is split into two methods:

- `OpenAround` runs the loop over rows;
- `OpenRow` runs the loop over the columns of one row.

The three methods are mutually recursive. Termination is measured by the number
of hidden cells, which each effective `Click` reduces by one.

## Model

| member | source | states |
|---|---|---|
| CellCode.Decode | minesweeper.py:74-93 | a value in one of the three ranges decodes to a well-formed cell that encodes back to the same value |
| CellCode.DecodeEncode | minesweeper.py:60-72 | decoding the packed form of any well-formed cell gives that cell back |
| CellCode.EncodeDecode | minesweeper.py:60-72 | every value in -1..8, 9..18 or 99..108 is the packed form of the cell it decodes to |
| CellCode.QueriesAgree | minesweeper.py:74-93 | on a packed cell: hidden iff state Hidden; flagged iff state Flagged; mine iff it holds a mine; blank iff no mine and no adjacent mine |
| CellCode.CarriesDecode | minesweeper.py:74-93 | a value that is a base value, base+10 or base+100 decodes to the cell with that base, and each query answers from the base and the offset |
| CellCode.OffsetsKeepDigit | minesweeper.py:60-81 | adding the reveal offset (+10) or the flag offset (+100) to any value leaves both the `hasMine` and the `isBlank` answer unchanged |
| Layout.NeighbourMines | minesweeper.py:54-58 | the number of mines among a cell's eight neighbours is at most 8 |
| Layout.Base | minesweeper.py:51-58 | the value construction gives a cell lies in -1..8 and is -1 exactly on a mine |
| Layout.PosOfInGrid | minesweeper.py:21-25 | a flat index in [0, w*h) names a cell of the grid |
| Layout.PosOfInjective | minesweeper.py:21-25 | two flat indices naming the same cell are equal |
| Layout.MineSetInGrid | minesweeper.py:21-25 | every mine placed from valid indices lies on the grid |
| Layout.MineSetSnoc | minesweeper.py:23-25 | handling one more index adds exactly its cell to the mine set |
| Layout.MineSetSize | minesweeper.py:21-25 | k distinct indices place exactly k mines |
| Layout.AddMine | minesweeper.py:54-58 | adding a mine raises another cell's count by one exactly when the mine is its neighbour |
| Layout.BlankIsolated | minesweeper.py:35-39 | a cell with no adjacent mine has no mine among its neighbours, so the flood never clicks a mine |
| Minesweeper.PlaceMineStep | minesweeper.py:23-25 | one `setMine` plus `setAdjacentMines` round turns the board for a mine set into the board for that set plus the new mine, whatever the order |
| Minesweeper.MineBoard.constructor | minesweeper.py:13-19 | the board is valid; it holds -1 exactly at the k given indices (cell i/w, i%w) and the neighbour count elsewhere; status is Playing; cellsToOpen is w*h-k, which is w*h less the mines less the revealed cells |
| Minesweeper.MineBoard.AllocateMines | minesweeper.py:21-25 | on an all-zero grid it leaves every cell holding the value that the full mine set gives it |
| Minesweeper.MineBoard.SetMine | minesweeper.py:51-52 | writes -1 at the cell and changes no other cell |
| Minesweeper.MineBoard.SetAdjacentMines | minesweeper.py:54-58 | adds one to each in-range cell of the 3x3 box that holds no mine, and leaves every other cell as it was |
| Minesweeper.MineBoard.ToggleFlag | minesweeper.py:60-64 | subtracts 100 from a flagged cell or adds 100 to a hidden one, which flips `isFlagged`, and keeps the board valid |
| Minesweeper.MineBoard.Reveal | minesweeper.py:66-72 | returns a value exactly when the cell is in range and hidden; it then adds 10 to that cell only and returns the new value; one hidden cell fewer, one revealed cell more; otherwise nothing changes |
| Minesweeper.MineBoard.QueriesMean | minesweeper.py:74-93 | on a valid board: isHidden iff Hidden; isFlagged iff Flagged; hasMine iff the cell is a mine; isBlank iff no mine and no mine around |
| Minesweeper.MineBoard.CellAt | minesweeper.py:74-93 | the tagged view of a cell encodes to the stored value; its mine bit and count are those of the layout |
| Minesweeper.MineBoard.IsOver | minesweeper.py:83-90 | the game is over exactly when the status is not Playing |
| Minesweeper.MineBoard.Click | minesweeper.py:27-39 | keeps the board valid; cells only go from hidden to revealed; a click on a cell that is out of range or not hidden changes nothing; cellsToOpen plus the number of revealed cells is conserved, so the counter stays w*h less the mines less the revealed cells (a revealed mine included); status is Lose after opening a mine, else Win when the counter reaches 0, else unchanged; no mine other than the clicked cell is revealed; every blank cell it reveals has all its neighbours shown; a click on a hidden cell that is a mine or has a mine around it changes no other cell |
| Minesweeper.MineBoard.OpenAround | minesweeper.py:35-39 | around a blank cell: clicks every in-range cell of the 3x3 box, so none of them stays hidden; reveals no mine; the counter and status rules of Click hold |
| Minesweeper.MineBoard.OpenRow | minesweeper.py:37-39 | clicks the in-range cells of one row of the box, so none of them stays hidden; same state rules as OpenAround |
| Minesweeper.MineBoard.Flag | minesweeper.py:41-43 | adds 100 to an in-range hidden cell only, so it is flagged; anything else is a no-op; a flagged cell stays flagged; no cell is revealed; status and counter are untouched |
| Minesweeper.MineBoard.FlagToggle | minesweeper.py:41-43 | corrected flag: a hidden cell becomes flagged and a flagged cell becomes hidden again; a revealed or out-of-range cell is left alone |
| Minesweeper.MineBoard.RevealAll | minesweeper.py:95-98 | adds 10 to every hidden cell and leaves revealed and flagged cells as they are; afterwards no cell is hidden; status and cellsToOpen are unchanged |

## Left out

- The `MinesweeperGUI` class and `main` are tkinter widgets, message boxes and
  console input. They are user interface and I/O. The GUI also keeps a finished
  game from taking further clicks or flags. The board does not do this itself,
  so the model does not either.
- `getRandomPos` (`random.sample`) is randomness. The constructor instead takes
  the mine indices as a parameter: distinct indices in `[0, w*h)` on a board with
  positive width and height, which is what `random.sample` returns.
- `int(i / w)` is float division. It is modelled as integer division, which gives
  the same cell for every non-negative index of a board that fits in memory.
- Python's recursion-depth limit is not modelled. The model recurses as deep as
  the number of hidden cells needs.
- Minesweeper.MineBoard.Click: the contract bounds the flood from below and in
  its simplest case. Every blank cell it reveals has all its neighbours shown, no
  mine is opened, and a click on a mine or a numbered cell changes no other cell.
  It does not bound the flood from above: it does not say that every other cell
  it reveals lies next to a blank cell the same click revealed. That bound is an
  existential over cells opened in three board states (before the click, before
  the current row, after the nested click). Carrying it through both loops and
  the mutual recursion costs more solver work than the proofs may use.
- Minesweeper.MineBoard.OpenAround: for the same reason, it does not say that
  every cell it reveals outside the 3x3 box lies next to a blank cell it
  revealed.
- Minesweeper.MineBoard.OpenRow: for the same reason, it does not say that
  every cell it reveals outside the 3x3 box lies next to a blank cell it
  revealed.
- The queries have no contracts of their own: each is one comparison on the
  stored value. `QueriesMean` states their meaning once for all of them.
- Some behaviours of the code are easy to overlook. The model follows the code
  in each of them.
  - `flag` is one-way: a second flag leaves the cell flagged (see Findings).
  - `revealAll` skips flagged cells, because it goes through `reveal`, which
    only opens hidden cells.
  - `click` lowers `cellsToOpen` for every revealed cell, a revealed mine
    included (line 30).
  - `reveal` never takes a flag off. Its un-flag step (lines 67-70) cannot run,
    because a flagged cell fails the hidden test first. The model marks that
    step as unreachable with an assertion.
  - No board operation checks `status`: clicks, flags and `revealAll` work the
    same on a finished game.

## Findings

| source | as written | input that shows it | evidently intended | confidence | as-written member | corrected member |
|---|---|---|---|---|---|---|
| minesweeper.py:41-43 | `flag` calls `toggleFlag` only on a hidden cell, and a flagged cell is never hidden, so the un-flag branch of `toggleFlag` (lines 61-62) is never reached | `flag(0, 0)` twice on a hidden cell: the cell stays flagged (value +100) | a second flag takes the flag off, which `toggleFlag`'s un-flag branch exists for | medium, not executed | Minesweeper.MineBoard.Flag | Minesweeper.MineBoard.FlagToggle |
