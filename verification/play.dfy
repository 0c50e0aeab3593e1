/**
 The step coordinator: lower the worker count to the number of cells,
 give worker `k` the stride `k, k + t, k + 2t, ...`, let every worker write
 its cells of the new board, and sum the workers' statistics field by
 field. The workers' writes are disjoint, so running them one after
 another in the order they are joined gives what the threads give.
 */
module Play {
  import opened Grid
  import opened Rule
  import opened Stats
  import opened Partition
  import opened Step
  import opened Worker

  /** Workers `0 .. k - 1` of `t`, applied in order to the new board; their statistics summed in join order. */
  function Workers(b: Board, nb: Board, size: nat, t: nat, k: nat): (r: (Board, Stats))
    requires IsBoard(b, size) && IsBoard(nb, size) && 0 < t && k <= t
    ensures IsBoard(r.0, size)
    decreases k
  {
    if k == 0 then (nb, Zero)
    else
      var before := Workers(b, nb, size, t, k - 1);
      var w := Work(b, before.0, size, k - 1, t);
      (w.0, Add(before.1, w.1))
  }

  /** After workers `0 .. k - 1`, exactly the cells whose index has residue below `k` hold their next value. */
  lemma {:induction false} WorkersCells(b: Board, nb: Board, size: nat, t: nat, k: nat)
    requires IsBoard(b, size) && IsBoard(nb, size) && 0 < t && k <= t
    ensures forall i, j :: 0 <= i < size && 0 <= j < size ==>
              Workers(b, nb, size, t, k).0[i][j]
              == if Index(size, i, j) % t < k then NextCell(b, size, i, j) else nb[i][j]
  {
    if k > 0 {
      WorkersCells(b, nb, size, t, k - 1);
      var before := Workers(b, nb, size, t, k - 1).0;
      var idxs := Visits(k - 1, t, Cells(size));
      VisitsOnBoard(k - 1, t, Cells(size), size);
      ApplyCells(b, before, size, idxs);
      forall i, j | 0 <= i < size && 0 <= j < size
        ensures Workers(b, nb, size, t, k).0[i][j]
                == if Index(size, i, j) % t < k then NextCell(b, size, i, j) else nb[i][j]
      {
        CellAfterWorker(size, t, k, i, j, before[i][j], Workers(b, nb, size, t, k).0[i][j], NextCell(b, size, i, j), nb[i][j]);
      }
    }
  }

  /** Worker `k - 1` writes cell `(i, j)` exactly when `k - 1` is the residue of its index. */
  lemma CellAfterWorker(size: nat, t: nat, k: nat, i: nat, j: nat, before: int, after: int, next: int, orig: int)
    requires 0 < t && 0 < k <= t && i < size && j < size
    requires before == if Index(size, i, j) % t < k - 1 then next else orig
    requires after == if Index(size, i, j) in Visits(k - 1, t, Cells(size)) then next else before
    ensures after == if Index(size, i, j) % t < k then next else orig
  {
    IndexRoundTrip(size, i, j);
    Owner(t, Cells(size), Index(size, i, j), k - 1);
  }

  /** The coordinator's sum is the workers' stride sums of the per-cell records, added in join order. */
  lemma {:induction false} WorkersStats(b: Board, nb: Board, size: nat, t: nat, k: nat)
    requires IsBoard(b, size) && IsBoard(nb, size) && 0 < t && k <= t
    ensures Workers(b, nb, size, t, k).1 == StrideSums(Booking(b, size), t, k, Cells(size))
  {
    if k > 0 {
      WorkersStats(b, nb, size, t, k - 1);
      VisitsOnBoard(k - 1, t, Cells(size), size);
      TallyIsSum(b, size, Visits(k - 1, t, Cells(size)));
    }
  }

  /**
   The fold over all `t` workers computes the next generation and its
   statistics, whatever `t` is (between 1 and the number of cells).
   */
  lemma AllWorkers(b: Board, nb: Board, size: nat, t: nat)
    requires IsBoard(b, size) && IsBoard(nb, size) && 0 < t
    ensures Workers(b, nb, size, t, t) == (Next(b, size), StepStats(b, size))
  {
    WorkersCells(b, nb, size, t, t);
    NextCells(b, size);
    BoardExt(Workers(b, nb, size, t, t).0, Next(b, size), size);
    WorkersStats(b, nb, size, t, t);
    StrideSumsWhole(Booking(b, size), t, Cells(size));
    TallyIsSum(b, size, AllCells(size));
  }

  /** Splitting the board among `t1` or among `t2` workers gives the same board and statistics. */
  lemma WorkerCountIrrelevant(b: Board, nb: Board, size: nat, t1: nat, t2: nat)
    requires IsBoard(b, size) && IsBoard(nb, size) && 0 < t1 && 0 < t2
    ensures Workers(b, nb, size, t1, t1) == Workers(b, nb, size, t2, t2)
  {
    AllWorkers(b, nb, size, t1);
    AllWorkers(b, nb, size, t2);
  }

  /** A board without cells: the new board is already the next generation and nothing is booked. */
  lemma NoCells(b: Board, nb: Board, size: nat)
    requires IsBoard(b, size) && IsBoard(nb, size) && Cells(size) == 0
    ensures nb == Next(b, size) && StepStats(b, size) == Zero
  {
    assert size == 0;
    assert AllCells(size) == [];
  }

  /** Joining worker `k` adds its writes and its statistics to those of workers `0 .. k - 1`. */
  lemma JoinOne(b: Board, nb: Board, size: nat, t: nat, k: nat, nb': Board, st: Stats, nb'': Board, ws: Stats)
    requires IsBoard(b, size) && IsBoard(nb, size) && 0 < t && k < t
    requires (nb', st) == Workers(b, nb, size, t, k)
    requires (nb'', ws) == Work(b, nb', size, k, t)
    ensures (nb'', Add(st, ws)) == Workers(b, nb, size, t, k + 1)
  {
  }

  /**
   One generation step. The worker count is lowered to the number of
   cells; worker `k` gets `start = k` and `jump = t`; the statistics are
   summed field by field as the workers are joined. The current board is a
   value and is not written; every cell of the new board is written once.
   */
  method Play(b: Board, nb: Board, size: nat, threads: int) returns (nb': Board, st: Stats)
    requires IsBoard(b, size) && IsBoard(nb, size) && threads >= 1
    ensures nb' == Next(b, size)
    ensures st == StepStats(b, size)
  {
    var t := EffectiveWorkers(threads, size);
    nb', st := nb, Zero;
    if t == 0 {
      // no cells at all: no worker is started
      NoCells(b, nb, size);
      return;
    }
    var k := 0;
    while k < t
      invariant k <= t
      invariant (nb', st) == Workers(b, nb, size, t, k)
    {
      var nb'', ws := Worker.Worker(b, nb', size, k, t);
      JoinOne(b, nb, size, t, k, nb', st, nb'', ws);
      nb', st := nb'', Add(st, ws);
      k := k + 1;
    }
    AllWorkers(b, nb, size, t);
  }
}
