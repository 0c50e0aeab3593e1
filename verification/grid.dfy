/**
 The board of the Game of Life: a square matrix of integer cells, addressed
 either by coordinate `(i, j)` or by the linear index `i * size + j` that
 the workers use to share out the cells. The model calls `b[i]` row `i` of
 the matrix; `read_file` in gol.c stores character `i` of each line of the
 input file there, so `b[i]` is column `i` of the board as written in the
 file. The rule treats both axes alike, so nothing depends on this.
 */
module Grid {

  /** A board is a sequence of rows; a cell is alive when it is nonzero. */
  type Board = seq<seq<int>>

  /** `b` is a `size` x `size` matrix. */
  predicate IsBoard(b: Board, size: nat) {
    |b| == size && forall i :: 0 <= i < size ==> |b[i]| == size
  }

  /** `read_file` in gol.c stores 1 for a live cell and 0 for a dead one. */
  predicate Binary(b: Board) {
    forall i, j :: 0 <= i < |b| && 0 <= j < |b[i]| ==> b[i][j] == 0 || b[i][j] == 1
  }

  /** Every cell of `b` is dead. */
  predicate AllDead(b: Board) {
    forall i, j :: 0 <= i < |b| && 0 <= j < |b[i]| ==> b[i][j] == 0
  }

  predicate Alive(cell: int) {
    cell != 0
  }

  /** Number of cells of a `size` x `size` board. */
  function Cells(size: nat): nat {
    size * size
  }

  /** Linear index of cell `(i, j)`. */
  function Index(size: nat, i: nat, j: nat): nat {
    i * size + j
  }

  /** Row of linear index `idx`, as the worker computes it. */
  function Row(size: nat, idx: nat): nat
    requires size > 0
  {
    idx / size
  }

  /** Column of linear index `idx`, as the worker computes it. */
  function Col(size: nat, idx: nat): nat
    requires size > 0
  {
    idx % size
  }

  /** Coordinates to index and back is the identity. */
  lemma IndexRoundTrip(size: nat, i: nat, j: nat)
    requires i < size && j < size
    ensures Index(size, i, j) < Cells(size)
    ensures Row(size, Index(size, i, j)) == i
    ensures Col(size, Index(size, i, j)) == j
  {
    var idx := i * size + j;
    assert idx < i * size + size == (i + 1) * size;
    assert (i + 1) * size <= size * size by {
      assert i + 1 <= size;
    }
    DivModUnique(size, i, j);
  }

  /** The coordinates of an index below `size * size` lie on the board. */
  lemma CoordBounds(size: nat, idx: nat)
    requires idx < Cells(size)
    ensures size > 0
    ensures Row(size, idx) < size && Col(size, idx) < size
  {
    if size == 0 {
      assert false;
    }
    var q := idx / size;
    assert q * size <= idx;
    if q >= size {
      assert false;
    }
  }

  /** Index to coordinates and back is the identity, and the coordinates lie on the board. */
  lemma CoordRoundTrip(size: nat, idx: nat)
    requires idx < Cells(size)
    ensures size > 0
    ensures Row(size, idx) < size && Col(size, idx) < size
    ensures Index(size, Row(size, idx), Col(size, idx)) == idx
  {
    if idx / size >= size {
      assert false;
    }
  }

  /** `q * d + r` has quotient `q` and remainder `r` when `0 <= r < d`. */
  lemma DivModUnique(d: nat, q: nat, r: nat)
    requires r < d
    ensures (q * d + r) / d == q && (q * d + r) % d == r
  {
    var x := q * d + r;
    var q' := x / d;
    assert (q' - q) * d == r - x % d;
    if q' > q {
      MulAtLeast(q' - q, d);
    } else if q' < q {
      MulAtLeast(q - q', d);
    }
  }

  lemma MulAtLeast(a: int, d: nat)
    requires a >= 1
    ensures a * d >= d
  {
  }

  /** Two boards of the same size with the same cells are equal. */
  lemma BoardExt(b: Board, c: Board, size: nat)
    requires IsBoard(b, size) && IsBoard(c, size)
    requires forall i, j :: 0 <= i < size && 0 <= j < size ==> b[i][j] == c[i][j]
    ensures b == c
  {
    forall i | 0 <= i < size
      ensures b[i] == c[i]
    {
      assert |b[i]| == |c[i]| == size;
    }
  }

  /** `b` with cell `(i, j)` set to `v`; every other cell keeps its value. */
  function Set(b: Board, size: nat, i: nat, j: nat, v: int): (r: Board)
    requires IsBoard(b, size) && i < size && j < size
    ensures IsBoard(r, size)
    ensures r[i][j] == v
    ensures forall k, l :: 0 <= k < size && 0 <= l < size && (k, l) != (i, j) ==> r[k][l] == b[k][l]
  {
    b[i := b[i][j := v]]
  }
}
