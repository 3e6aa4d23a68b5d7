/**
 * The packed integer a Minesweeper board stores per cell, and the tagged
 * cell it stands for.
 *
 * A hidden cell holds its base value: -1 for a mine, else the number of
 * adjacent mines (0..8). Revealing adds 10 (9 for a mine, 10..18 otherwise);
 * flagging adds 100 (99 for a mine, 100..108 otherwise). The queries below
 * read the packed value the way the board does; the lemmas prove that they
 * agree with the tagged view.
 */
module CellCode {

  datatype Option<T> = None | Some(value: T)

  datatype CellState = Hidden | Revealed | Flagged

  /** The tagged view of one cell. `adjacent` is unused (0) on a mine. */
  datatype Cell = Cell(state: CellState, mine: bool, adjacent: int)

  const RevealOffset: int := 10
  const FlagOffset: int := 100

  /** A cell the packed encoding can carry. */
  predicate WellFormed(c: Cell)
  {
    0 <= c.adjacent <= 8 && (c.mine ==> c.adjacent == 0)
  }

  /** The value a hidden cell holds: -1 for a mine, else its adjacency count. */
  function BaseCode(mine: bool, adjacent: int): int
  {
    if mine then -1 else adjacent
  }

  function Offset(s: CellState): int
  {
    match s
    case Hidden => 0
    case Revealed => RevealOffset
    case Flagged => FlagOffset
  }

  function Encode(c: Cell): (v: int)
    requires WellFormed(c)
    ensures -1 <= v <= 108
  {
    BaseCode(c.mine, c.adjacent) + Offset(c.state)
  }

  /** The cell whose base value is `b`. */
  function FromBase(b: int, s: CellState): (c: Cell)
    requires -1 <= b <= 8
    ensures WellFormed(c) && c.state == s && BaseCode(c.mine, c.adjacent) == b
  {
    if b == -1 then Cell(s, true, 0) else Cell(s, false, b)
  }

  function Decode(v: int): (r: Option<Cell>)
    ensures r.Some? ==> WellFormed(r.value) && Encode(r.value) == v
  {
    if -1 <= v <= 8 then Some(FromBase(v, Hidden))
    else if 9 <= v <= 18 then Some(FromBase(v - RevealOffset, Revealed))
    else if 99 <= v <= 108 then Some(FromBase(v - FlagOffset, Flagged))
    else None
  }

  /** `v` is a packed form of the cell whose base value is `base`. */
  predicate Carries(v: int, base: int)
  {
    v == base || v == base + RevealOffset || v == base + FlagOffset
  }

  // The board's four per-cell queries, on the packed value.

  predicate IsHiddenCode(v: int) { v < 9 }

  predicate HasMineCode(v: int) { v % 10 == 9 }

  predicate IsBlankCode(v: int) { v % 10 == 0 }

  predicate IsFlaggedCode(v: int) { v > 90 }

  lemma DecodeEncode(c: Cell)
    requires WellFormed(c)
    ensures Decode(Encode(c)) == Some(c)
  {
  }

  lemma EncodeDecode(v: int)
    requires -1 <= v <= 8 || 9 <= v <= 18 || 99 <= v <= 108
    ensures Decode(v).Some? && Encode(Decode(v).value) == v
  {
  }

  /** On a well-formed cell each packed query answers the tagged question. */
  lemma QueriesAgree(c: Cell)
    requires WellFormed(c)
    ensures IsHiddenCode(Encode(c)) <==> c.state == Hidden
    ensures IsFlaggedCode(Encode(c)) <==> c.state == Flagged
    ensures HasMineCode(Encode(c)) <==> c.mine
    ensures IsBlankCode(Encode(c)) <==> !c.mine && c.adjacent == 0
  {
  }

  /**
   * A value that carries a base in [-1, 8] decodes to the cell with that base,
   * and the queries agree with the decoded cell. This is what ties a board
   * cell to its tagged view.
   */
  lemma CarriesDecode(v: int, base: int)
    requires -1 <= base <= 8 && Carries(v, base)
    ensures Decode(v).Some?
    ensures BaseCode(Decode(v).value.mine, Decode(v).value.adjacent) == base
    ensures Decode(v).value.state == Hidden <==> v == base
    ensures Decode(v).value.state == Revealed <==> v == base + RevealOffset
    ensures Decode(v).value.state == Flagged <==> v == base + FlagOffset
    ensures IsHiddenCode(v) <==> v == base
    ensures IsFlaggedCode(v) <==> v == base + FlagOffset
    ensures HasMineCode(v) <==> base == -1
    ensures IsBlankCode(v) <==> base == 0
  {
  }

  /**
   * Revealing (+10) and flagging (+100) change neither the mine answer nor the
   * blank answer, since both read only the last decimal digit.
   */
  lemma OffsetsKeepDigit(v: int)
    ensures HasMineCode(v + RevealOffset) <==> HasMineCode(v)
    ensures IsBlankCode(v + RevealOffset) <==> IsBlankCode(v)
    ensures HasMineCode(v + FlagOffset) <==> HasMineCode(v)
    ensures IsBlankCode(v + FlagOffset) <==> IsBlankCode(v)
  {
  }
}
