/**
 * The Minesweeper board: an h-by-w grid of packed cell values (see CellCode),
 * the game status and the number of cells still to open.
 *
 * The mine positions are an input of the constructor (a sequence of distinct
 * flat indices) instead of a random sample.
 */
module Minesweeper {

  import opened CellCode
  import opened Layout

  datatype GameStatus = Playing | Lose | Win

  /**
   * One round of construction: writing -1 at m, then adding one to every
   * non-mine cell of m's 3x3 box, turns the board built for `mines` into the
   * board built for `mines + {m}`.
   */
  lemma PlaceMineStep(mines: set<Pos>, m: Pos, r: int, c: int)
    requires m !in mines
    ensures var v := if (r, c) == m then -1 else Base(mines, r, c);
      v + (if Near(m.0, m.1, r, c) && !HasMineCode(v) then 1 else 0) == Base(mines + {m}, r, c)
  {
    if (r, c) != m && (r, c) !in mines {
      AddMine(mines, m, r, c);
    }
  }

  class MineBoard {

    const w: int
    const h: int
    const board: array2<int>
    /** The cells holding a mine; fixed at construction. */
    ghost const Mines: set<Pos>

    var status: GameStatus
    var cellsToOpen: int

    predicate Shaped()
    {
      0 < w && 0 < h && board.Length0 == h && board.Length1 == w
    }

    /**
     * Every cell carries the value construction gave it (-1 for a mine, else
     * its adjacency count), either as it was, revealed (+10) or flagged (+100).
     */
    ghost predicate Valid()
      reads board
    {
      Shaped() &&
      (forall p :: p in Mines ==> InGrid(h, w, p.0, p.1)) &&
      // Triggered on Base only, so that not every read of the board brings
      // this fact in; a proof that needs it for a cell names Base of that cell.
      forall r, c {:trigger Base(Mines, r, c)} ::
        0 <= r < h && 0 <= c < w ==> Carries(board[r, c], Base(Mines, r, c))
    }

    /** The tagged view of the cell at (row, col). */
    ghost function CellAt(row: int, col: int): (cell: Cell)
      requires Valid() && IsValidCell(row, col)
      reads board
      ensures WellFormed(cell) && Encode(cell) == board[row, col]
      ensures cell.mine <==> (row, col) in Mines
      ensures !cell.mine ==> cell.adjacent == NeighbourMines(Mines, row, col)
    {
      CarriesDecode(board[row, col], Base(Mines, row, col));
      Decode(board[row, col]).value
    }

    predicate IsValidCell(row: int, col: int)
    {
      0 <= row < h && 0 <= col < w
    }

    predicate IsHidden(row: int, col: int)
      requires Shaped() && IsValidCell(row, col)
      reads board
    {
      IsHiddenCode(board[row, col])
    }

    predicate HasMine(row: int, col: int)
      requires Shaped() && IsValidCell(row, col)
      reads board
    {
      HasMineCode(board[row, col])
    }

    predicate IsBlank(row: int, col: int)
      requires Shaped() && IsValidCell(row, col)
      reads board
    {
      IsBlankCode(board[row, col])
    }

    predicate IsFlagged(row: int, col: int)
      requires Shaped() && IsValidCell(row, col)
      reads board
    {
      IsFlaggedCode(board[row, col])
    }

    /**
     * On a valid board the four packed queries answer the questions about the
     * tagged cell and the mine layout.
     */
    lemma QueriesMean(row: int, col: int)
      requires Valid() && IsValidCell(row, col)
      ensures IsHidden(row, col) <==> CellAt(row, col).state == Hidden
      ensures IsFlagged(row, col) <==> CellAt(row, col).state == Flagged
      ensures HasMine(row, col) <==> (row, col) in Mines
      ensures IsBlank(row, col) <==> (row, col) !in Mines && NeighbourMines(Mines, row, col) == 0
    {
      CarriesDecode(board[row, col], Base(Mines, row, col));
    }

    predicate LoseGame()
      reads this
    {
      status == Lose
    }

    predicate WinGame()
      reads this
    {
      status == Win
    }

    predicate IsOver()
      reads this
      ensures IsOver() <==> status != Playing
    {
      WinGame() || LoseGame()
    }

    /** The cells still hidden (neither revealed nor flagged). */
    ghost function HiddenCells(): set<Pos>
      requires Shaped()
      reads board
    {
      set r, c | 0 <= r < h && 0 <= c < w && IsHidden(r, c) :: (r, c)
    }

    /** The cells revealed so far, mines included. */
    ghost function Revealed(): set<Pos>
      requires Shaped()
      reads board
    {
      set r, c | 0 <= r < h && 0 <= c < w && !IsHidden(r, c) && !IsFlagged(r, c) :: (r, c)
    }

    /** The counter equals the cells not yet opened: w*h, less the mines, less the revealed cells. */
    ghost predicate CounterAgrees()
      requires Shaped()
      reads this, board
    {
      cellsToOpen == w * h - |Mines| - |Revealed()|
    }

    /** No cell in the 3x3 box around (row, col) is hidden. */
    ghost predicate NeighboursShown(row: int, col: int)
      requires Shaped()
      reads board
    {
      forall r, c :: 0 <= r < h && 0 <= c < w && Near(row, col, r, c) ==> !IsHidden(r, c)
    }

    constructor (w: int, h: int, mines: seq<int>)
      requires Placement(w, h, mines)
      ensures Valid() && fresh(board)
      ensures this.w == w && this.h == h
      ensures Mines == MineSet(w, mines) && |Mines| == |mines|
      ensures forall k :: 0 <= k < |mines| ==>
        InGrid(h, w, mines[k] / w, mines[k] % w) && board[mines[k] / w, mines[k] % w] == -1
      ensures forall r, c :: 0 <= r < h && 0 <= c < w ==> (board[r, c] == -1 <==> (r, c) in Mines)
      ensures forall r, c :: 0 <= r < h && 0 <= c < w ==> board[r, c] == Base(Mines, r, c)
      ensures HiddenCells() == set r, c | 0 <= r < h && 0 <= c < w :: (r, c)
      ensures status == Playing && cellsToOpen == w * h - |mines|
      ensures CounterAgrees()
    {
      this.w := w;
      this.h := h;
      board := new int[h, w]((r, c) => 0);
      Mines := MineSet(w, mines);
      new;
      MineSetInGrid(w, h, mines);
      MineSetSize(w, h, mines);
      AllocateMines(mines);
      status := Playing;
      cellsToOpen := w * h - |mines|;
      forall k | 0 <= k < |mines|
        ensures InGrid(h, w, mines[k] / w, mines[k] % w) && (mines[k] / w, mines[k] % w) in Mines
      {
        PosOfInGrid(w, h, mines[k]);
        assert PosOf(w, mines[k]) in MineSet(w, mines);
      }
      assert Revealed() == {};
    }

    /** Places a mine at every index of `mines` and counts the mines around every other cell. */
    method AllocateMines(mines: seq<int>)
      requires Shaped() && Placement(w, h, mines)
      requires forall r, c :: 0 <= r < h && 0 <= c < w ==> board[r, c] == 0
      modifies board
      ensures forall r, c :: 0 <= r < h && 0 <= c < w ==> board[r, c] == Base(MineSet(w, mines), r, c)
    {
      for t := 0 to |mines|
        invariant forall r, c :: 0 <= r < h && 0 <= c < w ==> board[r, c] == Base(MineSet(w, mines[..t]), r, c)
      {
        var i := mines[t];
        var placed := MineSet(w, mines[..t]);
        PosOfInGrid(w, h, i);
        assert mines[..t + 1] == mines[..t] + [i];
        MineSetSnoc(w, mines[..t], i);
        forall j | j in mines[..t] ensures PosOf(w, j) != PosOf(w, i) {
          var k :| 0 <= k < t && mines[k] == j;
          PosOfInjective(w, j, i);
        }
        SetMine(i / w, i % w);
        SetAdjacentMines(i / w, i % w);
        forall r, c | IsValidCell(r, c) ensures board[r, c] == Base(placed + {PosOf(w, i)}, r, c) {
          PlaceMineStep(placed, PosOf(w, i), r, c);
        }
      }
      assert mines[..|mines|] == mines;
    }

    method SetMine(row: int, col: int)
      requires Shaped() && IsValidCell(row, col)
      modifies board
      ensures board[row, col] == -1
      ensures forall r, c :: 0 <= r < h && 0 <= c < w && (r, c) != (row, col) ==> board[r, c] == old(board[r, c])
    {
      board[row, col] := -1;
    }

    /** Adds one to every cell of the 3x3 box around (row, col) that is in range and holds no mine. */
    method SetAdjacentMines(row: int, col: int)
      requires Shaped()
      modifies board
      ensures forall r, c :: 0 <= r < h && 0 <= c < w ==>
        board[r, c] == old(board[r, c]) + (if Near(row, col, r, c) && !HasMineCode(old(board[r, c])) then 1 else 0)
    {
      for dr := row - 1 to row + 2
        invariant forall r, c :: 0 <= r < h && 0 <= c < w ==>
          board[r, c] == old(board[r, c]) +
            (if r < dr && Near(row, col, r, c) && !HasMineCode(old(board[r, c])) then 1 else 0)
      {
        for dc := col - 1 to col + 2
          invariant forall r, c :: 0 <= r < h && 0 <= c < w ==>
            board[r, c] == old(board[r, c]) +
              (if (r < dr || (r == dr && c < dc)) && Near(row, col, r, c) && !HasMineCode(old(board[r, c]))
               then 1 else 0)
        {
          if IsValidCell(dr, dc) && !HasMine(dr, dc) {
            board[dr, dc] := board[dr, dc] + 1;
          }
        }
      }
    }

    /** Flags a hidden cell or unflags a flagged one. */
    method ToggleFlag(row: int, col: int)
      requires Valid() && IsValidCell(row, col)
      requires IsHidden(row, col) || IsFlagged(row, col)
      modifies board
      ensures Valid()
      ensures board[row, col]
           == if old(IsFlagged(row, col)) then old(board[row, col]) - FlagOffset
              else old(board[row, col]) + FlagOffset
      ensures IsFlagged(row, col) <==> !old(IsFlagged(row, col))
      ensures forall r, c :: 0 <= r < h && 0 <= c < w && (r, c) != (row, col) ==> board[r, c] == old(board[r, c])
    {
      assert Carries(board[row, col], Base(Mines, row, col));
      if IsFlagged(row, col) {
        board[row, col] := board[row, col] - FlagOffset;
      } else {
        board[row, col] := board[row, col] + FlagOffset;
      }
    }

    /**
     * Reveals a hidden cell and returns its new value; does nothing and
     * returns None out of range or on a cell that is not hidden.
     */
    method Reveal(row: int, col: int) returns (value: Option<int>)
      requires Valid()
      modifies board
      ensures Valid()
      ensures value.Some? <==> old(IsValidCell(row, col) && IsHidden(row, col))
      ensures value.None? ==> unchanged(board)
      ensures IsValidCell(row, col) ==> !IsHidden(row, col)
      ensures value.Some? ==>
        board[row, col] == old(board[row, col]) + RevealOffset && value.value == board[row, col] &&
        (forall r, c :: 0 <= r < h && 0 <= c < w && (r, c) != (row, col) ==> board[r, c] == old(board[r, c]))
      ensures value.Some? ==>
        |HiddenCells()| == old(|HiddenCells()|) - 1 && |Revealed()| == old(|Revealed()|) + 1
    {
      if !IsValidCell(row, col) || !IsHidden(row, col) {
        return None;
      }
      // The un-flag step before revealing cannot fire: a flagged cell is not hidden.
      assert !IsFlagged(row, col);
      assert Carries(board[row, col], Base(Mines, row, col));
      board[row, col] := board[row, col] + RevealOffset;
      assert HiddenCells() == old(HiddenCells()) - {(row, col)};
      assert Revealed() == old(Revealed()) + {(row, col)};
      return Some(board[row, col]);
    }

    /**
     * Reveals (row, col). Opening a mine loses; opening the last safe cell
     * wins; opening a blank cell clicks every cell around it (flood fill).
     */
    method Click(row: int, col: int)
      requires Valid()
      modifies this, board
      decreases |HiddenCells()|, 1
      ensures Valid()
      ensures forall r, c :: 0 <= r < h && 0 <= c < w ==>
        board[r, c] == old(board[r, c]) ||
        (old(board[r, c]) < 9 <= board[r, c] == old(board[r, c]) + RevealOffset)
      ensures |HiddenCells()| <= old(|HiddenCells()|)
      ensures cellsToOpen <= old(cellsToOpen)
      ensures cellsToOpen + |Revealed()| == old(cellsToOpen + |Revealed()|)
      ensures old(CounterAgrees()) ==> CounterAgrees()
      ensures IsValidCell(row, col) ==> !IsHidden(row, col)
      ensures !old(IsValidCell(row, col) && IsHidden(row, col)) ==> unchanged(board) && unchanged(this)
      ensures status
           == if old(IsValidCell(row, col) && IsHidden(row, col)) && (row, col) in Mines then Lose
              else if cellsToOpen <= 0 < old(cellsToOpen) then Win
              else old(status)
      ensures forall r, c ::
        0 <= r < h && 0 <= c < w && (r, c) in Mines && (r, c) != (row, col) ==> board[r, c] == old(board[r, c])
      ensures forall r, c ::
        0 <= r < h && 0 <= c < w && old(IsHidden(r, c)) && !IsHidden(r, c) && IsBlank(r, c) ==> NeighboursShown(r, c)
      ensures old(IsValidCell(row, col) && IsHidden(row, col)) &&
              ((row, col) in Mines || NeighbourMines(Mines, row, col) != 0) ==>
        forall r, c :: 0 <= r < h && 0 <= c < w && (r, c) != (row, col) ==> board[r, c] == old(board[r, c])
    {
      var value := Reveal(row, col);
      if value.Some? {
        QueriesMean(row, col);
        cellsToOpen := cellsToOpen - 1;
        if cellsToOpen == 0 {
          status := Win;
        }
        if HasMine(row, col) {
          status := Lose;
        } else if IsBlank(row, col) {
          OpenAround(row, col);
        }
      }
    }

    /**
     * The flood step of Click: clicks every in-range cell of the 3x3 box
     * around the blank cell (row, col), row by row.
     */
    method OpenAround(row: int, col: int)
      requires Valid() && (row, col) !in Mines && NeighbourMines(Mines, row, col) == 0
      modifies this, board
      decreases |HiddenCells()|, 3
      ensures Valid()
      ensures forall r, c :: 0 <= r < h && 0 <= c < w ==>
        board[r, c] == old(board[r, c]) ||
        (old(board[r, c]) < 9 <= board[r, c] == old(board[r, c]) + RevealOffset)
      ensures |HiddenCells()| <= old(|HiddenCells()|)
      ensures cellsToOpen <= old(cellsToOpen)
      ensures cellsToOpen + |Revealed()| == old(cellsToOpen + |Revealed()|)
      ensures status == if cellsToOpen <= 0 < old(cellsToOpen) then Win else old(status)
      ensures forall r, c :: 0 <= r < h && 0 <= c < w && (r, c) in Mines ==> board[r, c] == old(board[r, c])
      ensures NeighboursShown(row, col)
      ensures forall r, c ::
        0 <= r < h && 0 <= c < w && old(IsHidden(r, c)) && !IsHidden(r, c) && IsBlank(r, c) ==> NeighboursShown(r, c)
    {
      BlankIsolated(Mines, row, col);
      for dr := row - 1 to row + 2
        invariant Valid()
        invariant forall r, c :: 0 <= r < h && 0 <= c < w ==>
          board[r, c] == old(board[r, c]) ||
          (old(board[r, c]) < 9 <= board[r, c] == old(board[r, c]) + RevealOffset)
        invariant |HiddenCells()| <= old(|HiddenCells()|)
        invariant cellsToOpen <= old(cellsToOpen)
        invariant cellsToOpen + |Revealed()| == old(cellsToOpen + |Revealed()|)
        invariant status == if cellsToOpen <= 0 < old(cellsToOpen) then Win else old(status)
        invariant forall r, c :: 0 <= r < h && 0 <= c < w && (r, c) in Mines ==> board[r, c] == old(board[r, c])
        invariant forall r, c :: 0 <= r < h && 0 <= c < w && r < dr && Near(row, col, r, c) ==> 9 <= board[r, c]
        invariant forall r, c ::
          0 <= r < h && 0 <= c < w && old(IsHidden(r, c)) && !IsHidden(r, c) && IsBlank(r, c) ==> NeighboursShown(r, c)
      {
        label BeforeRow:
        OpenRow(row, col, dr);
        forall r, c | 0 <= r < h && 0 <= c < w && r < dr && Near(row, col, r, c)
          ensures 9 <= board[r, c]
        {
          assert old@BeforeRow(9 <= board[r, c]);
        }
        forall r, c | 0 <= r < h && 0 <= c < w && old(IsHidden(r, c)) && !IsHidden(r, c) && IsBlank(r, c)
          ensures NeighboursShown(r, c)
        {
          if !old@BeforeRow(IsHidden(r, c)) {
            assert old@BeforeRow(board[r, c]) == board[r, c];
            forall r2, c2 | 0 <= r2 < h && 0 <= c2 < w && Near(r, c, r2, c2) ensures !IsHidden(r2, c2) {
              assert old@BeforeRow(!IsHidden(r2, c2));
            }
          }
        }
      }
    }

    /** Clicks the in-range cells of row dr in the 3x3 box around (row, col), left to right. */
    method OpenRow(row: int, col: int, dr: int)
      requires Valid()
      requires forall c :: col - 1 <= c <= col + 1 ==> (dr, c) !in Mines
      modifies this, board
      decreases |HiddenCells()|, 2
      ensures Valid()
      ensures forall r, c :: 0 <= r < h && 0 <= c < w ==>
        board[r, c] == old(board[r, c]) ||
        (old(board[r, c]) < 9 <= board[r, c] == old(board[r, c]) + RevealOffset)
      ensures |HiddenCells()| <= old(|HiddenCells()|)
      ensures cellsToOpen <= old(cellsToOpen)
      ensures cellsToOpen + |Revealed()| == old(cellsToOpen + |Revealed()|)
      ensures status == if cellsToOpen <= 0 < old(cellsToOpen) then Win else old(status)
      ensures forall r, c :: 0 <= r < h && 0 <= c < w && (r, c) in Mines ==> board[r, c] == old(board[r, c])
      ensures forall c :: 0 <= dr < h && 0 <= c < w && Near(row, col, dr, c) ==> 9 <= board[dr, c]
      ensures forall r, c ::
        0 <= r < h && 0 <= c < w && old(IsHidden(r, c)) && !IsHidden(r, c) && IsBlank(r, c) ==> NeighboursShown(r, c)
    {
      for dc := col - 1 to col + 2
        invariant Valid()
        invariant forall r, c :: 0 <= r < h && 0 <= c < w ==>
          board[r, c] == old(board[r, c]) ||
          (old(board[r, c]) < 9 <= board[r, c] == old(board[r, c]) + RevealOffset)
        invariant |HiddenCells()| <= old(|HiddenCells()|)
        invariant cellsToOpen <= old(cellsToOpen)
        invariant cellsToOpen + |Revealed()| == old(cellsToOpen + |Revealed()|)
        invariant status == if cellsToOpen <= 0 < old(cellsToOpen) then Win else old(status)
        invariant forall r, c :: 0 <= r < h && 0 <= c < w && (r, c) in Mines ==> board[r, c] == old(board[r, c])
        invariant forall c :: 0 <= dr < h && 0 <= c < w && c < dc && Near(row, col, dr, c) ==> 9 <= board[dr, c]
        invariant forall r, c ::
          0 <= r < h && 0 <= c < w && old(IsHidden(r, c)) && !IsHidden(r, c) && IsBlank(r, c) ==> NeighboursShown(r, c)
      {
        if IsValidCell(dr, dc) {
          assert (dr, dc) !in Mines;
          label BeforeClick:
          Click(dr, dc);
          forall c | 0 <= dr < h && 0 <= c < w && c < dc && Near(row, col, dr, c)
            ensures 9 <= board[dr, c]
          {
            assert old@BeforeClick(9 <= board[dr, c]);
          }
          forall r, c | 0 <= r < h && 0 <= c < w && old(IsHidden(r, c)) && !IsHidden(r, c) && IsBlank(r, c)
            ensures NeighboursShown(r, c)
          {
            if !old@BeforeClick(IsHidden(r, c)) {
              assert old@BeforeClick(board[r, c]) == board[r, c];
              forall r2, c2 | 0 <= r2 < h && 0 <= c2 < w && Near(r, c, r2, c2) ensures !IsHidden(r2, c2) {
                assert old@BeforeClick(!IsHidden(r2, c2));
              }
            }
          }
          assert 9 <= board[dr, dc];
        }
      }
    }

    /** Flags a hidden cell; does nothing out of range or on a cell that is not hidden. */
    method Flag(row: int, col: int)
      requires Valid()
      modifies board
      ensures Valid()
      ensures old(IsValidCell(row, col) && IsHidden(row, col)) ==>
        board[row, col] == old(board[row, col]) + FlagOffset && IsFlagged(row, col)
      ensures !old(IsValidCell(row, col) && IsHidden(row, col)) ==> unchanged(board)
      ensures forall r, c :: 0 <= r < h && 0 <= c < w && (r, c) != (row, col) ==> board[r, c] == old(board[r, c])
      ensures IsValidCell(row, col) && old(IsFlagged(row, col)) ==> IsFlagged(row, col)
      ensures Revealed() == old(Revealed())
    {
      if IsValidCell(row, col) && IsHidden(row, col) {
        ToggleFlag(row, col);
      }
      assert Revealed() == old(Revealed());
    }

    /**
     * Flag as it is evidently meant to work: a second flag on a flagged cell
     * takes the flag off again. Out of range or on a revealed cell it does nothing.
     */
    method FlagToggle(row: int, col: int)
      requires Valid()
      modifies board
      ensures Valid()
      ensures old(IsValidCell(row, col) && IsHidden(row, col)) ==>
        board[row, col] == old(board[row, col]) + FlagOffset && IsFlagged(row, col)
      ensures old(IsValidCell(row, col) && IsFlagged(row, col)) ==>
        board[row, col] == old(board[row, col]) - FlagOffset && IsHidden(row, col)
      ensures !old(IsValidCell(row, col) && (IsHidden(row, col) || IsFlagged(row, col))) ==> unchanged(board)
      ensures forall r, c :: 0 <= r < h && 0 <= c < w && (r, c) != (row, col) ==> board[r, c] == old(board[r, c])
      ensures Revealed() == old(Revealed())
    {
      if IsValidCell(row, col) && (IsHidden(row, col) || IsFlagged(row, col)) {
        assert Carries(board[row, col], Base(Mines, row, col));
        ToggleFlag(row, col);
      }
      assert Revealed() == old(Revealed());
    }

    /** Reveals every cell that is still hidden; flagged cells stay flagged. */
    method RevealAll()
      requires Valid()
      modifies board
      ensures Valid()
      ensures forall r, c :: 0 <= r < h && 0 <= c < w ==>
        board[r, c] == if old(board[r, c]) < 9 then old(board[r, c]) + RevealOffset else old(board[r, c])
      ensures forall r, c :: 0 <= r < h && 0 <= c < w ==> !IsHidden(r, c)
      ensures HiddenCells() == {}
      ensures status == old(status) && cellsToOpen == old(cellsToOpen)
    {
      for i := 0 to h
        invariant Valid()
        invariant forall r, c :: 0 <= r < h && 0 <= c < w ==>
          board[r, c] == if r < i && old(board[r, c]) < 9 then old(board[r, c]) + RevealOffset else old(board[r, c])
      {
        for j := 0 to w
          invariant Valid()
          invariant forall r, c :: 0 <= r < h && 0 <= c < w ==>
            board[r, c]
            == if (r < i || (r == i && c < j)) && old(board[r, c]) < 9 then old(board[r, c]) + RevealOffset
               else old(board[r, c])
        {
          var _ := Reveal(i, j);
        }
      }
      forall r, c | 0 <= r < h && 0 <= c < w ensures !IsHidden(r, c) {
        assert old(Carries(board[r, c], Base(Mines, r, c)));
      }
    }
  }
}
