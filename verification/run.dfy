/**
 The driver: refuse a thread count below one, then run the requested
 number of generation steps, summing each step's statistics into the run
 total and swapping the roles of the two boards after every step.
 */
module Run {
  import opened Grid
  import opened Stats
  import opened Step
  import Play

  /** Generation `g` of the board `b`: `Next` applied `g` times. */
  function Generation(b: Board, size: nat, g: nat): (r: Board)
    requires IsBoard(b, size)
    ensures IsBoard(r, size)
  {
    if g == 0 then b else Next(Generation(b, size, g - 1), size)
  }

  /** The statistics of the steps that produce generations `1 .. g`, one per step. */
  function StepHistory(b: Board, size: nat, g: nat): (h: seq<Stats>)
    requires IsBoard(b, size)
    ensures |h| == g
  {
    if g == 0 then [] else StepHistory(b, size, g - 1) + [StepStats(Generation(b, size, g - 1), size)]
  }

  /** Entry `p` of the history is the statistics of the step from generation `p` to `p + 1`. */
  lemma {:induction false} StepHistoryAt(b: Board, size: nat, g: nat, p: nat)
    requires IsBoard(b, size) && p < g
    ensures StepHistory(b, size, g)[p] == StepStats(Generation(b, size, p), size)
  {
    var h := StepHistory(b, size, g - 1);
    assert StepHistory(b, size, g) == h + [StepStats(Generation(b, size, g - 1), size)];
    if p < g - 1 {
      StepHistoryAt(b, size, g - 1, p);
      assert StepHistory(b, size, g)[p] == h[p];
    }
  }

  /** Why a run is refused before it starts. */
  datatype Error = NoThreads

  datatype Result<T> = Ok(value: T) | Err(error: Error)

  /**
   The state at the end of a run: `prev` is the board the last step wrote,
   `next` the other buffer, `total` the summed statistics.
   */
  datatype Final = Final(prev: Board, next: Board, total: Stats)

  /** Summing one more record onto a sequence of records. */
  lemma SumAllSnoc(ss: seq<Stats>, s: Stats)
    ensures SumAll(ss + [s]) == Add(SumAll(ss), s)
  {
    assert (ss + [s])[..|ss|] == ss;
  }

  /**
   The step loop. Each step computes the next generation of `prev` into
   `next` and its statistics, adds those to the total field by field, and
   swaps the two boards. A non-positive step count runs no step.
   */
  method RunSteps(initial: Board, scratch: Board, size: nat, steps: int, threads: int)
    returns (prev: Board, next: Board, total: Stats, history: seq<Stats>)
    requires IsBoard(initial, size) && IsBoard(scratch, size) && threads >= 1
    ensures IsBoard(prev, size) && IsBoard(next, size)
    ensures steps <= 0 ==> prev == initial && next == scratch && total == Zero && history == []
    ensures steps > 0 ==> prev == Generation(initial, size, steps) && next == Generation(initial, size, steps - 1)
    ensures steps > 0 ==> history == StepHistory(initial, size, steps)
    ensures total == SumAll(history)
  {
    prev, next, total, history := initial, scratch, Zero, [];
    var i := 0;
    while i < steps
      invariant 0 <= i && (steps > 0 ==> i <= steps) && (steps <= 0 ==> i == 0)
      invariant IsBoard(prev, size) && IsBoard(next, size)
      invariant prev == Generation(initial, size, i)
      invariant i == 0 ==> next == scratch
      invariant i > 0 ==> next == Generation(initial, size, i - 1)
      invariant history == StepHistory(initial, size, i)
      invariant total == SumAll(history)
    {
      var st;
      next, st := Play.Play(prev, next, size, threads);
      Advance(initial, size, i, history, next, st);
      SumAllSnoc(history, st);
      total := Add(total, st);
      history := history + [st];
      prev, next := next, prev;
      i := i + 1;
    }
  }

  /** One step of the loop extends the generations and the history by one. */
  lemma Advance(b: Board, size: nat, i: nat, history: seq<Stats>, nb: Board, st: Stats)
    requires IsBoard(b, size)
    requires history == StepHistory(b, size, i)
    requires nb == Next(Generation(b, size, i), size) && st == StepStats(Generation(b, size, i), size)
    ensures nb == Generation(b, size, i + 1)
    ensures history + [st] == StepHistory(b, size, i + 1)
  {
  }

  /**
   The whole program. Reading the board from its file is abstracted into
   the parameters `initial` and `size`. `main` checks the thread count
   after opening the board file and before reading it or allocating a
   board (main.c:19-35): a count below one is refused; otherwise the
   steps are run.
   */
  method Simulate(initial: Board, scratch: Board, size: nat, steps: int, threads: int)
    returns (r: Result<Final>)
    requires IsBoard(initial, size) && IsBoard(scratch, size)
    ensures r.Err? <==> threads < 1
    ensures r.Err? ==> r.error == NoThreads
    ensures r.Ok? ==> r.value.total == SumAll(StepHistory(initial, size, if steps > 0 then steps else 0))
    ensures r.Ok? ==> r.value.prev == Generation(initial, size, if steps > 0 then steps else 0)
  {
    if threads < 1 {
      return Err(NoThreads);
    }
    var prev, next, total, history := RunSteps(initial, scratch, size, steps, threads);
    r := Ok(Final(prev, next, total));
  }

  /** An all-dead board stays all dead for every generation. */
  lemma {:induction false} DeadGenerations(b: Board, size: nat, g: nat)
    requires IsBoard(b, size) && AllDead(b)
    ensures Generation(b, size, g) == b
  {
    if g > 0 {
      DeadGenerations(b, size, g - 1);
      DeadStaysDead(b, size);
      assert Generation(b, size, g) == Next(Generation(b, size, g - 1), size);
    }
  }

  /** A run on an all-dead board books nothing, however many steps it takes. */
  lemma {:induction false} DeadRun(b: Board, size: nat, g: nat)
    requires IsBoard(b, size) && AllDead(b)
    ensures SumAll(StepHistory(b, size, g)) == Zero
  {
    if g > 0 {
      DeadRun(b, size, g - 1);
      DeadGenerations(b, size, g - 1);
      DeadStaysDead(b, size);
      var h, s := StepHistory(b, size, g - 1), StepStats(b, size);
      assert StepHistory(b, size, g) == h + [s];
      SumAllSnoc(h, s);
      assert SumAll(h) == Zero && s == Zero;
      AddZero(Zero);
    }
  }

  /** A run on a 0/1 board keeps every generation a 0/1 board. */
  lemma {:induction false} GenerationBinary(b: Board, size: nat, g: nat)
    requires IsBoard(b, size) && Binary(b)
    ensures Binary(Generation(b, size, g))
  {
    if g > 0 {
      GenerationBinary(b, size, g - 1);
      NextBinary(Generation(b, size, g - 1), size);
    }
  }
}
