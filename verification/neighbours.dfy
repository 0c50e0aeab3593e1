/**
 Neighbour counting: the number of live cells among the eight cells around
 `(i, j)`. The board has hard edges: a cell on the border simply has fewer
 neighbours, nothing wraps round to the opposite side.
 */
module Neighbours {
  import opened Grid

  /** Value of cell `(k, l)`, or 0 when `(k, l)` lies off the board. */
  function At(b: Board, size: nat, k: int, l: int): int
    requires IsBoard(b, size)
  {
    if 0 <= k < size && 0 <= l < size then b[k][l] else 0
  }

  /** 1 when `(k, l)` lies on the board, else 0. */
  function OnBoard(size: nat, k: int, l: int): nat {
    if 0 <= k < size && 0 <= l < size then 1 else 0
  }

  /** Reference count: the sum over the eight Moore neighbours of `(i, j)` that lie on the board. */
  function Moore(b: Board, size: nat, i: nat, j: nat): int
    requires IsBoard(b, size)
  {
    At(b, size, i - 1, j - 1) + At(b, size, i - 1, j) + At(b, size, i - 1, j + 1)
    + At(b, size, i, j - 1) + At(b, size, i, j + 1)
    + At(b, size, i + 1, j - 1) + At(b, size, i + 1, j) + At(b, size, i + 1, j + 1)
  }

  /** How many of the eight neighbours of `(i, j)` lie on the board. */
  function Slots(size: nat, i: nat, j: nat): nat {
    OnBoard(size, i - 1, j - 1) + OnBoard(size, i - 1, j) + OnBoard(size, i - 1, j + 1)
    + OnBoard(size, i, j - 1) + OnBoard(size, i, j + 1)
    + OnBoard(size, i + 1, j - 1) + OnBoard(size, i + 1, j) + OnBoard(size, i + 1, j + 1)
  }

  /** First row (or column) of the clamped 3x3 block around `i`. */
  function Low(i: nat): nat {
    if i > 0 then i - 1 else i
  }

  /** Last row (or column) of the clamped 3x3 block around `i`. */
  function High(size: nat, i: nat): nat {
    if i + 1 < size then i + 1 else i
  }

  /** `row[lo] + ... + row[hi - 1]`, summed left to right. */
  function RowSum(row: seq<int>, lo: nat, hi: nat): int
    requires lo <= hi <= |row|
    decreases hi - lo
  {
    if hi == lo then 0 else RowSum(row, lo, hi - 1) + row[hi - 1]
  }

  /** Sum of the rows `klo .. khi - 1` restricted to the columns `llo .. lhi - 1`. */
  function BlockSum(b: Board, size: nat, klo: nat, khi: nat, llo: nat, lhi: nat): int
    requires IsBoard(b, size)
    requires klo <= khi <= size && llo <= lhi <= size
    decreases khi - klo
  {
    if khi == klo then 0 else BlockSum(b, size, klo, khi - 1, llo, lhi) + RowSum(b[khi - 1], llo, lhi)
  }

  /** The three cells of row `k` centred on column `j`, off-board cells counting 0. */
  function Row3(b: Board, size: nat, k: int, j: nat): int
    requires IsBoard(b, size)
  {
    At(b, size, k, j - 1) + At(b, size, k, j) + At(b, size, k, j + 1)
  }

  /**
   Counts the live neighbours of `(i, j)` as `adjacent_to` in gol.c does: sum the
   clamped 3x3 block row by row, then take the centre cell back out.
   */
  method AdjacentTo(b: Board, size: nat, i: nat, j: nat) returns (count: int)
    requires IsBoard(b, size) && i < size && j < size
    ensures count == Moore(b, size, i, j)
    ensures Binary(b) ==> 0 <= count <= Slots(size, i, j) <= 8
  {
    var sk, ek := Low(i), High(size, i);
    var sl, el := Low(j), High(size, j);
    count := 0;
    var k := sk;
    while k <= ek
      invariant sk <= k <= ek + 1
      invariant count == BlockSum(b, size, sk, k, sl, el + 1)
    {
      var l := sl;
      while l <= el
        invariant sl <= l <= el + 1
        invariant count == BlockSum(b, size, sk, k, sl, el + 1) + RowSum(b[k], sl, l)
      {
        count := count + b[k][l];
        l := l + 1;
      }
      k := k + 1;
    }
    count := count - b[i][j];
    BlockIsMoore(b, size, i, j);
    if Binary(b) {
      MooreBound(b, size, i, j);
    }
  }

  /** The clamped column range of row `k` holds exactly the three cells around `j` that are on the board. */
  lemma RowSumIsRow3(b: Board, size: nat, k: nat, j: nat)
    requires IsBoard(b, size) && k < size && j < size
    ensures RowSum(b[k], Low(j), High(size, j) + 1) == Row3(b, size, k, j)
  {
    var row := b[k];
    var lo, hi := Low(j), High(size, j) + 1;
    assert RowSum(row, lo, lo) == 0;
    if j > 0 {
      assert RowSum(row, lo, j) == row[j - 1];
    }
    assert RowSum(row, lo, j + 1) == RowSum(row, lo, j) + row[j];
    if j + 1 < size {
      assert RowSum(row, lo, j + 2) == RowSum(row, lo, j + 1) + row[j + 1];
    }
  }

  /** The clamped block, less its centre, is the Moore count. */
  lemma BlockIsMoore(b: Board, size: nat, i: nat, j: nat)
    requires IsBoard(b, size) && i < size && j < size
    ensures BlockSum(b, size, Low(i), High(size, i) + 1, Low(j), High(size, j) + 1) - b[i][j]
            == Moore(b, size, i, j)
  {
    var lo, hi := Low(i), High(size, i) + 1;
    var sl, el := Low(j), High(size, j) + 1;
    assert BlockSum(b, size, lo, lo, sl, el) == 0;
    if i > 0 {
      RowSumIsRow3(b, size, i - 1, j);
      assert BlockSum(b, size, lo, i, sl, el) == Row3(b, size, i - 1, j);
    } else {
      assert Row3(b, size, i - 1, j) == 0;
    }
    RowSumIsRow3(b, size, i, j);
    assert BlockSum(b, size, lo, i + 1, sl, el) == BlockSum(b, size, lo, i, sl, el) + Row3(b, size, i, j);
    if i + 1 < size {
      RowSumIsRow3(b, size, i + 1, j);
      assert BlockSum(b, size, lo, i + 2, sl, el) == BlockSum(b, size, lo, i + 1, sl, el) + Row3(b, size, i + 1, j);
    } else {
      assert Row3(b, size, i + 1, j) == 0;
    }
  }

  /** On a board of 0/1 cells the count lies between 0 and the number of on-board neighbours, at most 8. */
  lemma MooreBound(b: Board, size: nat, i: nat, j: nat)
    requires IsBoard(b, size) && Binary(b) && i < size && j < size
    ensures 0 <= Moore(b, size, i, j) <= Slots(size, i, j) <= 8
  {
  }

  /** A corner cell has at most three neighbours on the board. */
  lemma CornerSlots(size: nat)
    ensures Slots(size, 0, 0) <= 3
    ensures size > 0 ==> Slots(size, size - 1, size - 1) <= 3
    ensures size > 0 ==> Slots(size, 0, size - 1) <= 3 && Slots(size, size - 1, 0) <= 3
  {
  }

  /**
   The count depends only on the on-board cells adjacent to `(i, j)`:
   not on the centre itself, and not on any cell of the opposite edge.
   */
  lemma MooreLocal(b: Board, c: Board, size: nat, i: nat, j: nat)
    requires IsBoard(b, size) && IsBoard(c, size) && i < size && j < size
    requires forall k, l ::
               (0 <= k < size && 0 <= l < size && (k, l) != (i, j) && i - 1 <= k <= i + 1 && j - 1 <= l <= j + 1)
               ==> b[k][l] == c[k][l]
    ensures Moore(b, size, i, j) == Moore(c, size, i, j)
  {
  }
}
