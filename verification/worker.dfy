/**
 One worker: it walks its stride of linear indices, reads only the
 current board, writes the next value of each visited cell into the new
 board, and keeps its own private statistics.
 */
module Worker {
  import opened Grid
  import opened Neighbours
  import opened Rule
  import opened Stats
  import opened Partition
  import opened Step

  /** The new board after writing the next value of every cell in `idxs`, in order. */
  function Apply(b: Board, nb: Board, size: nat, idxs: seq<nat>): (r: Board)
    requires IsBoard(b, size) && IsBoard(nb, size) && OnBoardIndices(idxs, size)
    ensures IsBoard(r, size)
  {
    if |idxs| == 0 then nb else WriteNext(b, Apply(b, nb, size, idxs[..|idxs| - 1]), size, idxs[|idxs| - 1])
  }

  /** The new board with the cell at index `idx` set to its next value. */
  function WriteNext(b: Board, nb: Board, size: nat, idx: nat): (r: Board)
    requires IsBoard(b, size) && IsBoard(nb, size) && idx < Cells(size)
    ensures IsBoard(r, size)
  {
    CoordRoundTrip(size, idx);
    Set(nb, size, Row(size, idx), Col(size, idx), FateAt(b, size, idx).next)
  }

  /** Writing `idxs` sets exactly the cells named in `idxs` to their next value and leaves every other cell alone. */
  lemma {:induction false} ApplyCells(b: Board, nb: Board, size: nat, idxs: seq<nat>)
    requires IsBoard(b, size) && IsBoard(nb, size) && OnBoardIndices(idxs, size)
    ensures forall i, j :: 0 <= i < size && 0 <= j < size ==>
              Apply(b, nb, size, idxs)[i][j] == if Index(size, i, j) in idxs then NextCell(b, size, i, j) else nb[i][j]
  {
    if |idxs| > 0 {
      var idx := idxs[|idxs| - 1];
      var prefix := idxs[..|idxs| - 1];
      ApplyCells(b, nb, size, prefix);
      CoordRoundTrip(size, idx);
      assert idxs == prefix + [idx];
      forall i, j | 0 <= i < size && 0 <= j < size
        ensures Apply(b, nb, size, idxs)[i][j]
                == if Index(size, i, j) in idxs then NextCell(b, size, i, j) else nb[i][j]
      {
        IndexRoundTrip(size, i, j);
        assert Index(size, i, j) in idxs <==> Index(size, i, j) in prefix || Index(size, i, j) == idx;
      }
    }
  }

  /** What worker `(start, jump)` produces: the new board with its cells written, and its statistics. */
  function Work(b: Board, nb: Board, size: nat, start: nat, jump: nat): (Board, Stats)
    requires IsBoard(b, size) && IsBoard(nb, size) && jump > 0
  {
    VisitsOnBoard(start, jump, Cells(size), size);
    var idxs := Visits(start, jump, Cells(size));
    (Apply(b, nb, size, idxs), Tally(b, size, idxs))
  }

  /** Visiting one more cell writes that cell and books its outcome. */
  lemma VisitOne(b: Board, nb: Board, size: nat, done: seq<nat>, idx: nat)
    requires IsBoard(b, size) && IsBoard(nb, size) && OnBoardIndices(done, size) && idx < Cells(size)
    ensures OnBoardIndices(done + [idx], size)
    ensures Apply(b, nb, size, done + [idx]) == WriteNext(b, Apply(b, nb, size, done), size, idx)
    ensures Tally(b, size, done + [idx]) == Record(Tally(b, size, done), FateAt(b, size, idx).outcome)
  {
    TallySnoc(b, size, done, idx);
    var d := done + [idx];
    assert d[..|done|] == done;
    ApplyLast(b, nb, size, d);
  }

  lemma ApplyLast(b: Board, nb: Board, size: nat, d: seq<nat>)
    requires IsBoard(b, size) && IsBoard(nb, size) && OnBoardIndices(d, size) && |d| > 0
    ensures Apply(b, nb, size, d) == WriteNext(b, Apply(b, nb, size, d[..|d| - 1]), size, d[|d| - 1])
  {
  }

  /** `idx` lies on the board exactly when its row does. */
  lemma RowInRange(size: nat, idx: nat)
    requires size > 0
    ensures Row(size, idx) < size <==> idx < Cells(size)
  {
    if idx < Cells(size) {
      CoordRoundTrip(size, idx);
    } else if idx / size < size {
      MulAtLeast(size - idx / size, size);
    }
  }

  /**
   The body of the worker loop for the cell `(i, j)` at index `idx`: count
   its neighbours, apply the rule, write the next value into the new board
   and book the outcome.
   */
  method VisitCell(b: Board, nb: Board, size: nat, st: Stats, idx: nat, i: nat, j: nat)
    returns (nb': Board, st': Stats)
    requires IsBoard(b, size) && IsBoard(nb, size) && idx < Cells(size)
    requires size > 0 && i == Row(size, idx) && j == Col(size, idx)
    ensures nb' == WriteNext(b, nb, size, idx)
    ensures st' == Record(st, FateAt(b, size, idx).outcome)
  {
    CoordRoundTrip(size, idx);
    var a := AdjacentTo(b, size, i, j);
    var fate := Transition(b[i][j], a);
    nb' := Set(nb, size, i, j, fate.next);
    st' := Record(st, fate.outcome);
  }

  /** The worker loop's invariant survives visiting the next index of the stride. */
  lemma VisitStep(b: Board, nb: Board, size: nat, start: nat, jump: nat, done: seq<nat>, counter: nat, nb': Board, st: Stats)
    requires IsBoard(b, size) && IsBoard(nb, size) && jump > 0 && counter < Cells(size)
    requires OnBoardIndices(done, size)
    requires Visits(start, jump, Cells(size)) == done + Visits(counter, jump, Cells(size))
    requires nb' == WriteNext(b, Apply(b, nb, size, done), size, counter)
    requires st == Record(Tally(b, size, done), FateAt(b, size, counter).outcome)
    ensures OnBoardIndices(done + [counter], size)
    ensures Visits(start, jump, Cells(size)) == (done + [counter]) + Visits(counter + jump, jump, Cells(size))
    ensures nb' == Apply(b, nb, size, done + [counter])
    ensures st == Tally(b, size, done + [counter])
  {
    var n := Cells(size);
    VisitOne(b, nb, size, done, counter);
    var rest := Visits(counter + jump, jump, n);
    assert Visits(counter, jump, n) == [counter] + rest;
    assert done + ([counter] + rest) == (done + [counter]) + rest;
  }

  /**
   The worker loop. Starting from `start`, it visits `start`,
   `start + jump`, ... while the first index `counter / size` is below `size`;
   each visited cell gets its next value written into the new board and
   its outcome booked. Cells outside the stride are left as they were.
   */
  method Worker(b: Board, nb: Board, size: nat, start: nat, jump: nat) returns (nb': Board, st: Stats)
    requires IsBoard(b, size) && IsBoard(nb, size) && size > 0 && jump > 0
    ensures IsBoard(nb', size)
    ensures forall i, j :: 0 <= i < size && 0 <= j < size ==>
              nb'[i][j] == if Index(size, i, j) in Visits(start, jump, Cells(size)) then NextCell(b, size, i, j) else nb[i][j]
    ensures (nb', st) == Work(b, nb, size, start, jump)
  {
    var n := Cells(size);
    VisitsOnBoard(start, jump, Cells(size), size);
    nb' := nb;
    st := Zero;
    var i, j, counter := start / size, start % size, start;
    ghost var done: seq<nat> := [];
    RowInRange(size, counter);
    while i < size
      invariant i == Row(size, counter) && j == Col(size, counter)
      invariant i < size <==> counter < n
      invariant OnBoardIndices(done, size)
      invariant Visits(start, jump, n) == done + Visits(counter, jump, n)
      invariant nb' == Apply(b, nb, size, done)
      invariant st == Tally(b, size, done)
      decreases n - counter
    {
      nb', st := VisitCell(b, nb', size, st, counter, i, j);
      VisitStep(b, nb, size, start, jump, done, counter, nb', st);
      done := done + [counter];
      counter := counter + jump;
      i, j := counter / size, counter % size;
      RowInRange(size, counter);
    }
    assert done == Visits(start, jump, n);
    ApplyCells(b, nb, size, done);
  }
}
