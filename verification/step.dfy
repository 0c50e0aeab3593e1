/**
 The reference generation step: every cell's next value and outcome,
 computed from the frozen current board, and the statistics of a set of
 cells. The workers and the coordinator are proved against these.
 */
module Step {
  import opened Grid
  import opened Neighbours
  import opened Rule
  import opened Stats
  import opened Partition

  /** Fate of cell `(i, j)`: the rule applied to its value and its neighbour count. */
  function CellFate(b: Board, size: nat, i: nat, j: nat): Fate
    requires IsBoard(b, size) && i < size && j < size
  {
    Transition(b[i][j], Moore(b, size, i, j))
  }

  /** Next value of cell `(i, j)`. */
  function NextCell(b: Board, size: nat, i: nat, j: nat): int
    requires IsBoard(b, size) && i < size && j < size
  {
    CellFate(b, size, i, j).next
  }

  /** Fate of the cell at linear index `idx`. */
  function FateAt(b: Board, size: nat, idx: nat): (f: Fate)
    requires IsBoard(b, size) && idx < Cells(size)
    ensures size > 0 && f.next == NextCell(b, size, Row(size, idx), Col(size, idx))
  {
    CoordBounds(size, idx);
    CellFate(b, size, Row(size, idx), Col(size, idx))
  }

  /** The next generation of the whole board, row by row. */
  function Next(b: Board, size: nat): (r: Board)
    requires IsBoard(b, size)
    ensures IsBoard(r, size)
  {
    NextRows(b, size, size)
  }

  /** Rows `0 .. n - 1` of the next generation. */
  function NextRows(b: Board, size: nat, n: nat): (r: Board)
    requires IsBoard(b, size) && n <= size
    ensures |r| == n && forall k :: 0 <= k < n ==> |r[k]| == size
  {
    if n == 0 then [] else NextRows(b, size, n - 1) + [NextRow(b, size, n - 1, size)]
  }

  /** Cells `0 .. n - 1` of row `i` of the next generation. */
  function NextRow(b: Board, size: nat, i: nat, n: nat): (r: seq<int>)
    requires IsBoard(b, size) && i < size && n <= size
    ensures |r| == n
  {
    if n == 0 then [] else NextRow(b, size, i, n - 1) + [NextCell(b, size, i, n - 1)]
  }

  lemma {:induction false} NextRowCells(b: Board, size: nat, i: nat, n: nat)
    requires IsBoard(b, size) && i < size && n <= size
    ensures forall j :: 0 <= j < n ==> NextRow(b, size, i, n)[j] == NextCell(b, size, i, j)
  {
    if n > 0 {
      NextRowCells(b, size, i, n - 1);
      var r := NextRow(b, size, i, n - 1);
      assert NextRow(b, size, i, n) == r + [NextCell(b, size, i, n - 1)];
    }
  }

  lemma {:induction false} NextRowsCells(b: Board, size: nat, n: nat)
    requires IsBoard(b, size) && n <= size
    ensures forall i, j :: 0 <= i < n && 0 <= j < size ==> NextRows(b, size, n)[i][j] == NextCell(b, size, i, j)
  {
    if n > 0 {
      NextRowsCells(b, size, n - 1);
      NextRowCells(b, size, n - 1, size);
      var r := NextRows(b, size, n - 1);
      assert NextRows(b, size, n) == r + [NextRow(b, size, n - 1, size)];
    }
  }

  /** Every cell of the next generation holds that cell's next value. */
  lemma NextCells(b: Board, size: nat)
    requires IsBoard(b, size)
    ensures forall i, j :: 0 <= i < size && 0 <= j < size ==> Next(b, size)[i][j] == NextCell(b, size, i, j)
  {
    NextRowsCells(b, size, size);
  }

  /** Every index of `idxs` names a cell of the board. */
  predicate OnBoardIndices(idxs: seq<nat>, size: nat) {
    forall p :: 0 <= p < |idxs| ==> idxs[p] < Cells(size)
  }

  /** A worker's assignment, bounded by at most the cell count, names cells of the board only. */
  lemma VisitsOnBoard(start: nat, jump: nat, total: nat, size: nat)
    requires jump > 0 && total <= Cells(size)
    ensures OnBoardIndices(Visits(start, jump, total), size)
  {
    var v := Visits(start, jump, total);
    VisitsShape(start, jump, total);
    forall p | 0 <= p < |v|
      ensures v[p] < Cells(size)
    {
      assert v[p] in v;
    }
  }

  /** The statistics of the cells `idxs`, booked in order. */
  function Tally(b: Board, size: nat, idxs: seq<nat>): Stats
    requires IsBoard(b, size) && OnBoardIndices(idxs, size)
  {
    if |idxs| == 0 then Zero
    else Record(Tally(b, size, idxs[..|idxs| - 1]), FateAt(b, size, idxs[|idxs| - 1]).outcome)
  }

  /** Booking one more cell records its outcome on top of what was booked before. */
  lemma TallySnoc(b: Board, size: nat, idxs: seq<nat>, x: nat)
    requires IsBoard(b, size) && OnBoardIndices(idxs, size) && x < Cells(size)
    ensures OnBoardIndices(idxs + [x], size)
    ensures Tally(b, size, idxs + [x]) == Record(Tally(b, size, idxs), FateAt(b, size, x).outcome)
  {
    var d := idxs + [x];
    assert d[..|idxs|] == idxs;
    forall p | 0 <= p < |d|
      ensures d[p] < Cells(size)
    {
      if p < |idxs| {
        assert d[p] == idxs[p];
      }
    }
  }

  /** The record each cell contributes: its outcome booked on an empty record; off-board indices contribute nothing. */
  function Booking(b: Board, size: nat): nat -> Stats
    requires IsBoard(b, size)
  {
    (idx: nat) => if idx < Cells(size) then Record(Zero, FateAt(b, size, idx).outcome) else Zero
  }

  /** Booking the cells one by one is summing their single-outcome records. */
  lemma {:induction false} TallyIsSum(b: Board, size: nat, idxs: seq<nat>)
    requires IsBoard(b, size) && OnBoardIndices(idxs, size)
    ensures Tally(b, size, idxs) == SumOver(Booking(b, size), idxs)
  {
    if |idxs| > 0 {
      var idx := idxs[|idxs| - 1];
      TallyIsSum(b, size, idxs[..|idxs| - 1]);
      RecordAdds(Tally(b, size, idxs[..|idxs| - 1]), FateAt(b, size, idx).outcome);
    }
  }

  /** The indices `0 .. Cells(size) - 1` in order: the single-worker assignment. */
  function AllCells(size: nat): (r: seq<nat>)
    ensures |r| == Cells(size) && OnBoardIndices(r, size)
    ensures forall p :: 0 <= p < |r| ==> r[p] == p
  {
    VisitsOnBoard(0, 1, Cells(size), size);
    VisitsShape(0, 1, Cells(size));
    VisitsLength(Cells(size));
    Visits(0, 1, Cells(size))
  }

  lemma {:induction false} VisitsLength(n: nat)
    ensures |Visits(0, 1, n)| == n
  {
    if n > 0 {
      VisitsLength(n - 1);
      VisitsExtend(0, 1, n - 1);
    }
  }

  /** The statistics of one whole generation. */
  function StepStats(b: Board, size: nat): Stats
    requires IsBoard(b, size)
  {
    Tally(b, size, AllCells(size))
  }

  /** How many of the cells `idxs` are alive. */
  function LiveIn(b: Board, size: nat, idxs: seq<nat>): nat
    requires IsBoard(b, size) && OnBoardIndices(idxs, size)
  {
    if |idxs| == 0 then 0
    else
      var idx := idxs[|idxs| - 1];
      CoordRoundTrip(size, idx);
      LiveIn(b, size, idxs[..|idxs| - 1]) + (if Alive(b[Row(size, idx)][Col(size, idx)]) then 1 else 0)
  }

  /**
   Every live cell is booked exactly once (survival, loneliness or
   overcrowding), and no cell is booked twice; dead cells that stay dead
   are not booked, so the four counters need not add up to the cell count.
   */
  lemma {:induction false} TallyBooksLiveCells(b: Board, size: nat, idxs: seq<nat>)
    requires IsBoard(b, size) && OnBoardIndices(idxs, size)
    ensures WasAlive(Tally(b, size, idxs)) == LiveIn(b, size, idxs)
    ensures Total(Tally(b, size, idxs)) <= |idxs|
  {
    if |idxs| > 0 {
      var prefix := idxs[..|idxs| - 1];
      TallyBooksLiveCells(b, size, prefix);
      RecordCounts(Tally(b, size, prefix), FateAt(b, size, idxs[|idxs| - 1]).outcome);
    }
  }

  /** For a whole step: deaths plus survivals are the live cells of the board, and at most `size * size` cells are booked. */
  lemma StepBooksLiveCells(b: Board, size: nat)
    requires IsBoard(b, size)
    ensures WasAlive(StepStats(b, size)) == LiveIn(b, size, AllCells(size))
    ensures Total(StepStats(b, size)) <= Cells(size)
  {
    TallyBooksLiveCells(b, size, AllCells(size));
  }

  /** A board of 0/1 cells has a next generation of 0/1 cells. */
  lemma NextBinary(b: Board, size: nat)
    requires IsBoard(b, size) && Binary(b)
    ensures Binary(Next(b, size))
  {
    NextCells(b, size);
  }

  /** The statistics of cells that are all dead and have no live neighbour are all zero. */
  lemma {:induction false} DeadTally(b: Board, size: nat, idxs: seq<nat>)
    requires IsBoard(b, size) && AllDead(b) && OnBoardIndices(idxs, size)
    ensures Tally(b, size, idxs) == Zero
  {
    if |idxs| > 0 {
      var idx := idxs[|idxs| - 1];
      DeadTally(b, size, idxs[..|idxs| - 1]);
      CoordRoundTrip(size, idx);
      DeadQuiet(b, size, Row(size, idx), Col(size, idx));
      assert FateAt(b, size, idx).outcome == Unchanged;
      assert Tally(b, size, idxs) == Record(Tally(b, size, idxs[..|idxs| - 1]), Unchanged);
    }
  }

  /** A dead cell with no live neighbour stays dead and is not booked. */
  lemma DeadQuiet(b: Board, size: nat, i: nat, j: nat)
    requires IsBoard(b, size) && AllDead(b) && i < size && j < size
    ensures Transition(b[i][j], Moore(b, size, i, j)) == Fate(0, Unchanged)
  {
    assert Moore(b, size, i, j) == 0;
  }

  /** An all-dead board stays all dead, and nothing is booked. */
  lemma DeadStaysDead(b: Board, size: nat)
    requires IsBoard(b, size) && AllDead(b)
    ensures Next(b, size) == b
    ensures StepStats(b, size) == Zero
  {
    DeadTally(b, size, AllCells(size));
    DeadNext(b, size);
  }

  lemma DeadNext(b: Board, size: nat)
    requires IsBoard(b, size) && AllDead(b)
    ensures Next(b, size) == b
  {
    var r := Next(b, size);
    NextCells(b, size);
    forall i | 0 <= i < size
      ensures r[i] == b[i]
    {
      forall j | 0 <= j < size
        ensures r[i][j] == b[i][j]
      {
        DeadQuiet(b, size, i, j);
      }
      assert |r[i]| == |b[i]|;
    }
    assert |r| == |b|;
  }
}
