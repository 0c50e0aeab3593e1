/**
 A worked example: one step of the period-2 blinker on a 3 x 3 board.
 The bar of three live cells turns by a quarter. The step books two
 births, at (1, 0) and (1, 2); one survival, the centre; and two deaths of
 loneliness, at the ends of the bar, (0, 1) and (2, 1), which have one live
 neighbour each. The four corners stay dead and are not booked, so the
 counters add up to 5, not to the 9 cells of the board.
 */
module Blinker {
  import opened Grid
  import opened Neighbours
  import opened Rule
  import opened Stats
  import opened Step

  /** `b` is one phase of the blinker: the cells `(0, 1)`, `(1, 1)` and `(2, 1)` are alive. */
  predicate IsBlinker(b: Board) {
    b == [[0, 1, 0], [0, 1, 0], [0, 1, 0]]
  }

  lemma TopFates(b: Board)
    requires IsBlinker(b)
    ensures FateAt(b, 3, 0) == Fate(0, Unchanged) && FateAt(b, 3, 1) == Fate(0, Loneliness) && FateAt(b, 3, 2) == Fate(0, Unchanged)
  {
    assert Moore(b, 3, 0, 0) == 2;
    assert Moore(b, 3, 0, 1) == 1;
    assert Moore(b, 3, 0, 2) == 2;
  }

  lemma MiddleFates(b: Board)
    requires IsBlinker(b)
    ensures FateAt(b, 3, 3) == Fate(1, Born) && FateAt(b, 3, 4) == Fate(1, Survival) && FateAt(b, 3, 5) == Fate(1, Born)
  {
    assert Moore(b, 3, 1, 0) == 3;
    assert Moore(b, 3, 1, 1) == 2;
    assert Moore(b, 3, 1, 2) == 3;
  }

  lemma BottomFates(b: Board)
    requires IsBlinker(b)
    ensures FateAt(b, 3, 6) == Fate(0, Unchanged) && FateAt(b, 3, 7) == Fate(0, Loneliness) && FateAt(b, 3, 8) == Fate(0, Unchanged)
  {
    assert Moore(b, 3, 2, 0) == 2;
    assert Moore(b, 3, 2, 1) == 1;
    assert Moore(b, 3, 2, 2) == 2;
  }

  /** Row `i` of the next generation of a 3 x 3 board, from its three cells. */
  lemma RowOfThree(b: Board, i: nat, x: int, y: int, z: int)
    requires IsBoard(b, 3) && i < 3
    requires NextCell(b, 3, i, 0) == x && NextCell(b, 3, i, 1) == y && NextCell(b, 3, i, 2) == z
    ensures NextRow(b, 3, i, 3) == [x, y, z]
  {
    assert NextRow(b, 3, i, 1) == [x];
    assert NextRow(b, 3, i, 2) == [x, y];
  }

  /** The next generation of a 3 x 3 board, from its three rows. */
  lemma RowsOfThree(b: Board, r: seq<int>, s: seq<int>, u: seq<int>)
    requires IsBoard(b, 3)
    requires NextRow(b, 3, 0, 3) == r && NextRow(b, 3, 1, 3) == s && NextRow(b, 3, 2, 3) == u
    ensures Next(b, 3) == [r, s, u]
  {
    assert NextRows(b, 3, 1) == [r];
    assert NextRows(b, 3, 2) == [r, s];
  }

  /** The blinker turns into its other phase: the cells `(1, 0)`, `(1, 1)` and `(1, 2)` are alive. */
  lemma BlinkerNext(b: Board)
    requires IsBlinker(b)
    ensures Next(b, 3) == [[0, 0, 0], [1, 1, 1], [0, 0, 0]]
  {
    TopFates(b);
    MiddleFates(b);
    BottomFates(b);
    RowOfThree(b, 0, 0, 0, 0);
    RowOfThree(b, 1, 1, 1, 1);
    RowOfThree(b, 2, 0, 0, 0);
    RowsOfThree(b, [0, 0, 0], [1, 1, 1], [0, 0, 0]);
  }

  /** Booking three more cells whose outcomes are known. */
  lemma TallyRow(b: Board, size: nat, d: seq<nat>, x: nat, y: nat, z: nat, ox: Outcome, oy: Outcome, oz: Outcome)
    requires IsBoard(b, size) && OnBoardIndices(d, size) && x < Cells(size) && y < Cells(size) && z < Cells(size)
    requires FateAt(b, size, x).outcome == ox && FateAt(b, size, y).outcome == oy && FateAt(b, size, z).outcome == oz
    ensures OnBoardIndices(d + [x, y, z], size)
    ensures Tally(b, size, d + [x, y, z]) == Record(Record(Record(Tally(b, size, d), ox), oy), oz)
  {
    TallySnoc(b, size, d, x);
    TallySnoc(b, size, d + [x], y);
    TallySnoc(b, size, d + [x] + [y], z);
    assert d + [x] + [y] + [z] == d + [x, y, z];
  }

  lemma AllCellsAre(size: nat, d: seq<nat>)
    requires |d| == Cells(size) && forall p :: 0 <= p < |d| ==> d[p] == p
    ensures AllCells(size) == d
  {
  }

  /** The first three cells book one death of loneliness. */
  lemma TopTally(b: Board)
    requires IsBlinker(b)
    ensures OnBoardIndices([0, 1, 2], 3) && Tally(b, 3, [0, 1, 2]) == Stats(0, 0, 1, 0)
  {
    TopFates(b);
    TallyRow(b, 3, [], 0, 1, 2, Unchanged, Loneliness, Unchanged);
    assert [] + [0, 1, 2] == [0, 1, 2];
  }

  /** The first six cells add two births and one survival. */
  lemma MiddleTally(b: Board)
    requires IsBlinker(b)
    ensures OnBoardIndices([0, 1, 2, 3, 4, 5], 3) && Tally(b, 3, [0, 1, 2, 3, 4, 5]) == Stats(2, 1, 1, 0)
  {
    TopTally(b);
    MiddleFates(b);
    TallyRow(b, 3, [0, 1, 2], 3, 4, 5, Born, Survival, Born);
    assert [0, 1, 2] + [3, 4, 5] == [0, 1, 2, 3, 4, 5];
  }

  /** The blinker step books two births, one survival and two deaths of loneliness. */
  lemma BlinkerStats(b: Board)
    requires IsBlinker(b)
    ensures StepStats(b, 3) == Stats(2, 1, 2, 0)
  {
    MiddleTally(b);
    BottomFates(b);
    TallyRow(b, 3, [0, 1, 2, 3, 4, 5], 6, 7, 8, Unchanged, Loneliness, Unchanged);
    assert [0, 1, 2, 3, 4, 5] + [6, 7, 8] == [0, 1, 2, 3, 4, 5, 6, 7, 8];
    AllCellsAre(3, [0, 1, 2, 3, 4, 5, 6, 7, 8]);
  }
}
