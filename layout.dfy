/**
 * The mine layout of a board: where the mines are and how many of them
 * touch each cell. Positions are (row, column) pairs; a flat index i on a
 * board of width w stands for the cell (i / w, i % w).
 */
module Layout {

  type Pos = (int, int)

  predicate InGrid(h: int, w: int, r: int, c: int)
  {
    0 <= r < h && 0 <= c < w
  }

  /** (r2, c2) lies in the 3x3 box centred on (r1, c1). */
  predicate Near(r1: int, c1: int, r2: int, c2: int)
  {
    -1 <= r2 - r1 <= 1 && -1 <= c2 - c1 <= 1
  }

  function Indicator(mines: set<Pos>, r: int, c: int): nat
  {
    if (r, c) in mines then 1 else 0
  }

  /** The number of mines among the eight cells around (r, c). */
  function NeighbourMines(mines: set<Pos>, r: int, c: int): (n: nat)
    ensures n <= 8
  {
    Indicator(mines, r - 1, c - 1) + Indicator(mines, r - 1, c) + Indicator(mines, r - 1, c + 1) +
    Indicator(mines, r, c - 1) + Indicator(mines, r, c + 1) +
    Indicator(mines, r + 1, c - 1) + Indicator(mines, r + 1, c) + Indicator(mines, r + 1, c + 1)
  }

  /** The value a freshly built board holds at (r, c). */
  function Base(mines: set<Pos>, r: int, c: int): (b: int)
    ensures -1 <= b <= 8
    ensures b == -1 <==> (r, c) in mines
  {
    if (r, c) in mines then -1 else NeighbourMines(mines, r, c)
  }

  function PosOf(w: int, i: int): Pos
    requires w > 0
  {
    (i / w, i % w)
  }

  /** The cells named by a sequence of flat indices. */
  function MineSet(w: int, idx: seq<int>): set<Pos>
    requires w > 0
  {
    set i | i in idx :: PosOf(w, i)
  }

  /** `idx` holds distinct flat indices of a w-by-h board. */
  predicate Placement(w: int, h: int, idx: seq<int>)
  {
    0 < w && 0 < h &&
    (forall k :: 0 <= k < |idx| ==> 0 <= idx[k] < w * h) &&
    (forall k, l :: 0 <= k < l < |idx| ==> idx[k] != idx[l])
  }

  lemma PosOfInGrid(w: int, h: int, i: int)
    requires 0 < w && 0 <= i < w * h
    ensures InGrid(h, w, PosOf(w, i).0, PosOf(w, i).1)
  {
    var q := i / w;
    assert q * w <= i < h * w;
    assert (h - q) * w == h * w - q * w;
  }

  lemma PosOfInjective(w: int, i: int, j: int)
    requires w > 0
    ensures PosOf(w, i) == PosOf(w, j) ==> i == j
  {
    assert i == (i / w) * w + i % w;
    assert j == (j / w) * w + j % w;
  }

  lemma MineSetInGrid(w: int, h: int, idx: seq<int>)
    requires Placement(w, h, idx)
    ensures forall p :: p in MineSet(w, idx) ==> InGrid(h, w, p.0, p.1)
  {
    forall p | p in MineSet(w, idx) ensures InGrid(h, w, p.0, p.1) {
      var i :| i in idx && p == PosOf(w, i);
      PosOfInGrid(w, h, i);
    }
  }

  /** Extending the index sequence by one index adds exactly its cell. */
  lemma MineSetSnoc(w: int, idx: seq<int>, i: int)
    requires w > 0
    ensures MineSet(w, idx + [i]) == MineSet(w, idx) + {PosOf(w, i)}
  {
    assert forall j :: j in idx + [i] <==> j in idx || j == i;
  }

  /** Distinct indices name distinct cells, so k indices place k mines. */
  lemma {:induction false} MineSetSize(w: int, h: int, idx: seq<int>)
    requires Placement(w, h, idx)
    ensures |MineSet(w, idx)| == |idx|
  {
    if idx == [] {
      assert MineSet(w, idx) == {};
    } else {
      var n := |idx| - 1;
      var front := idx[..n];
      assert idx == front + [idx[n]];
      assert Placement(w, h, front);
      MineSetSize(w, h, front);
      MineSetSnoc(w, front, idx[n]);
      forall j | j in front ensures PosOf(w, j) != PosOf(w, idx[n]) {
        var k :| 0 <= k < n && front[k] == j;
        assert j != idx[n];
        PosOfInjective(w, j, idx[n]);
      }
    }
  }

  /**
   * Placing one more mine m raises the count of every other cell by one
   * exactly when m is in that cell's 3x3 box.
   */
  lemma AddMine(mines: set<Pos>, m: Pos, r: int, c: int)
    requires m !in mines && (r, c) != m
    ensures NeighbourMines(mines + {m}, r, c)
         == NeighbourMines(mines, r, c) + (if Near(r, c, m.0, m.1) then 1 else 0)
  {
    forall r2, c2 | Near(r, c, r2, c2)
      ensures Indicator(mines + {m}, r2, c2) == Indicator(mines, r2, c2) + (if (r2, c2) == m then 1 else 0)
    {
    }
  }

  /** A cell with no adjacent mine has no mine in its 3x3 box besides itself. */
  lemma BlankIsolated(mines: set<Pos>, r: int, c: int)
    requires NeighbourMines(mines, r, c) == 0
    ensures forall r2, c2 :: Near(r, c, r2, c2) && (r2, c2) != (r, c) ==> (r2, c2) !in mines
  {
    forall r2, c2 | Near(r, c, r2, c2) && (r2, c2) != (r, c)
      ensures (r2, c2) !in mines
    {
      assert Indicator(mines, r2, c2) == 0;
    }
  }
}
