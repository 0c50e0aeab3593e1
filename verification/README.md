# Game of Life generation engine — a Dafny model

This project models the core of a small multi-threaded Game of Life
engine written in C. It covers the neighbour count `adjacent_to`, the
per-thread worker `thread`, the step coordinator `play` in `gol.c`, and
the generation loop with its thread-count guard in `main.c`.

The board is a `size` x `size` matrix of integer cells. A cell is alive
when it is nonzero. `board[i][j]` holds character `i` of line `j` of the
input file, so the first index is the file's column; the rule treats both
axes alike, and the model just calls `b[i]` row `i`. One step reads the current board only and writes
every cell of a second board.

The coordinator lowers the requested thread count to the number of
cells. Worker `k` of `t` then walks the linear indices `k, k + t,
k + 2t, ...`, maps each index `idx` to the cell `(idx / size, idx % size)`,
counts its neighbours and applies the rule. The worker writes the new
value and books the outcome in its private statistics. The coordinator
adds the workers' statistics field by field in join order.

`main` rejects a thread count below one before it reads the board file,
and then runs the requested number of steps. After each step it adds the step's statistics to a run
total and swaps the two board handles.

Modules, in dependency order:

- `Grid` (grid.dfy): boards, the linear index and its round trip, single-cell update.
- `Neighbours` (neighbours.dfy): the reference Moore count `Moore` and the clamped-loop method `AdjacentTo`.
- `Rule` (rule.dfy): the transition table `Transition` and its outcome.
- `Stats` (stats.dfy): the four counters, booking one outcome, field-wise sums.
- `Partition` (partition.dfy): the stride assignment `Visits`, the worker-count clamp, and stride sums of per-cell records.
- `Step` (step.dfy): the reference next generation `Next` and the reference step statistics `StepStats`.
- `Worker` (worker.dfy): the worker loop as a method, proved equal to a functional description.
- `Play` (play.dfy): the coordinator, proved to compute `Next` and `StepStats` for every thread count.
- `Run` (run.dfy): the generation loop with handle swap and run total, and the thread-count guard.
- `Blinker` (blinker.dfy): one step of the blinker, computed exactly.

The threads of `play` are modelled as running one after another in the
order they are joined. That order is faithful because the threads share
only the read-only current board, and the partition lemmas show each cell
of the new board is written by exactly one worker.

## Model

| member | source | states |
|---|---|---|
| `Neighbours.AdjacentTo` | gol.c:46-60 | The clamped 3x3 loop minus the centre equals the reference count `Moore`: the eight neighbours, with off-board positions counting 0 (no wraparound). On a 0/1 board the count is between 0 and the number of on-board neighbours, which is at most 8. |
| `Neighbours.MooreLocal` | gol.c:49-57 | The count depends only on the on-board cells adjacent to `(i, j)`. Two boards that agree there give the same count, whatever the centre cell or any cell beyond the edge holds. |
| `Neighbours.CornerSlots` | gol.c:49-52 | Each of the four corners has at most 3 on-board neighbours. |
| `Neighbours.MooreBound` | gol.c:54-57 | On a 0/1 board the Moore count is between 0 and the number of on-board neighbours, and at most 8. |
| `Rule.Transition` | gol.c:80-108 | The next value is alive exactly when B3/S23 says so. Each outcome holds if and only if its condition holds: Born (dead becomes alive), Survival (alive stays alive), Loneliness (alive dies with fewer than 2), Overcrowding (alive dies with more than 3), Unchanged (dead stays dead). So exactly one outcome applies. A birth writes 1; every other branch writes 0 or keeps the cell's value. |
| `Rule.TransitionBinary` | gol.c:84-107 | A 0/1 cell has a 0/1 next value. |
| `Stats.RecordCounts` | gol.c:85-105 | Booking an outcome raises the counter total by one, except for Unchanged. It raises the count of live-cell outcomes (survival and the two deaths) exactly for those outcomes. |
| `Partition.EffectiveWorkers` | gol.c:121-123 | The number of workers started is the requested count lowered to `size * size`. It never exceeds either, and it is at least 1 when the board has a cell. |
| `Partition.VisitsMember` | gol.c:75-111 | A worker starting at `start` with stride `jump` visits index `x` if and only if `start <= x < size * size` and `x` has `start`'s remainder modulo `jump`. |
| `Partition.VisitsShape` | gol.c:109-111 | The `m`-th visited index is `start + m * jump`. Visits are strictly increasing and stay below the bound. |
| `Partition.Owner` | gol.c:126-134 | Cell `idx` is in worker `k`'s assignment if and only if `k == idx % t`. |
| `Partition.WrittenOnce` | gol.c:126-135 | The set of workers whose assignment holds `idx` is exactly `{idx % t}`, so each cell is written once. |
| `Partition.Disjoint` | gol.c:126-135 | Two different workers never share a cell. |
| `Partition.Complete` | gol.c:126-135 | Every cell belongs to some worker. |
| `Partition.StrideSumsWhole` | gol.c:137-145 | Adding up, worker by worker, each worker's sum of per-cell records over its stride gives the single in-order sum over all cells, for every worker count. |
| `Step.TallyIsSum` | gol.c:80-108 | Booking cells one by one in a private record equals summing their single-outcome records. |
| `Step.TallyBooksLiveCells` | gol.c:80-105 | Survivals plus both kinds of death equal the number of live cells visited. The four counters together are at most the number of cells visited. |
| `Step.StepBooksLiveCells` | gol.c:118-148 | For a whole step, survivals plus deaths are the live cells of the board, and the counter total is at most `size * size`. |
| `Step.NextCells` | gol.c:80-108 | Every cell of the next generation holds the rule's value for that cell's neighbour count on the current board. |
| `Step.NextBinary` | gol.c:80-108 | A 0/1 board has a 0/1 next generation. |
| `Step.DeadStaysDead` | gol.c:100-107 | An all-dead board stays all dead, and its step books nothing. |
| `Worker.VisitCell` | gol.c:79-108 | The loop body for one cell writes that cell's next value into the new board and books its outcome on the worker's record. |
| `Worker.ApplyCells` | gol.c:77-112 | Writing the cells of a list sets exactly those cells to their next value and leaves every other cell of the new board unchanged. |
| `Worker.Worker` | gol.c:67-116 | The worker loop runs while the first index `counter / size` is below `size`. It writes the next value of exactly the cells of its stride and leaves all others unchanged. Its statistics are the bookings of those cells, in visiting order. |
| `Play.WorkersCells` | gol.c:126-135 | After workers `0 .. k - 1` have run, a cell holds its next value if its index has remainder below `k`, and holds its old value otherwise. |
| `Play.WorkersStats` | gol.c:137-145 | The coordinator's field-wise sum over the joined workers is the stride sum of the per-cell records. |
| `Play.AllWorkers` | gol.c:118-148 | All `t` workers together produce the next generation and the whole-board statistics, for any `t >= 1`. |
| `Play.WorkerCountIrrelevant` | gol.c:118-148 | Any two worker counts give the same new board and the same statistics. |
| `Play.Play` | gol.c:118-148 | One step, for any thread count `>= 1`: the new board is `Next` of the current board and the statistics are `StepStats`. A board with no cells starts no worker and returns zero statistics. |
| `Run.RunSteps` | main.c:45-61 | After the loop, `prev` is generation `steps` of the initial board and, for `steps > 0`, `next` is generation `steps - 1` (the swapped handles). The per-step statistics are those of the successive generations, and the run total is their field-wise sum. A step count of 0 or less returns the initial board, the untouched scratch board and zero totals. |
| `Run.StepHistoryAt` | main.c:45-51 | Entry `p` of the run's statistics is the statistics of the step from generation `p` to `p + 1`. |
| `Run.Simulate` | main.c:24-61 | The run fails with `NoThreads` if and only if the thread count is below 1. Otherwise it returns generation `max(steps, 0)` and the sum of the steps' statistics. |
| `Run.DeadGenerations` | main.c:45-61 | An all-dead board stays all dead in every generation. |
| `Run.DeadRun` | main.c:45-61 | A run of any length on an all-dead board has zero totals. |
| `Run.GenerationBinary` | main.c:45-61 | Every generation of a 0/1 board is a 0/1 board. |
| `Blinker.BlinkerNext` | gol.c:80-108 | The blinker `[[0,1,0],[0,1,0],[0,1,0]]` steps to `[[0,0,0],[1,1,1],[0,0,0]]`. |
| `Blinker.BlinkerStats` | gol.c:80-108 | The blinker's step books 2 births, 1 survival, 2 deaths of loneliness and 0 of overcrowding. |

## Left out

- Threads (`pthread_create`, `pthread_join`): workers run one after another in join order. Their writes are disjoint and they only read the current board, so in a run where every thread is created and joined the result is the same.
- Thread resource limits: `play` declares `pthread_t ths[threads]` on the stack with the requested, unclamped count (gol.c:120, before the clamp at gol.c:121-123), so a very large thread count (around a million or more on a default 8 MB stack) overflows the stack on any board. It also ignores the result of `pthread_create` (gol.c:134); after a failed create, the `pthread_join` at gol.c:139 is undefined and that worker's cells are never written. `Play.Play`, `Run.RunSteps` and `Run.Simulate` describe only runs in which the handle array fits on the stack and every thread is created.
- `allocate_board`, `free_board` and the per-thread `malloc`/`free`: boards are values, and memory is not modelled.
- The process-wide `statistics` variable that `allocate_board` resets: nothing in the core reads it.
- `read_file`, `print_board`, `print_stats`, the `DEBUG`/`RESULT` output, and the argument-count and `fopen` checks in `main`: these are I/O. The board, step count and thread count are parameters. `atoi` is not modelled; the thread count is an `int` parameter.
- `cell_t` comes from `gol.h`, which is not part of this model. Cells are modelled as unbounded integers, with alive meaning nonzero.
- Counter overflow: the statistics counters are `nat`, so the model does not wrap the C counters.
- `Partition.EffectiveWorkers`: `size` is a `nat`, and `size * size` is computed without 32-bit overflow. Negative sizes and sizes whose square overflows `int` are not modelled.
- 32-bit overflow of the worker's linear index: `counter += params->jump` in gol.c:109 is an `int` addition. It overflows once `size * size - 1 + t` exceeds `INT_MAX`, which can happen even when `size * size` fits. One example is `size = 46340` with 88049 threads. The C then keeps looping with a negative index and reads and writes outside the board. The model's indices are unbounded, so `Worker.Worker` and `Play.Play` describe only the runs in which this sum fits in an `int`.
- The glider behaviour over several generations is not proved. The blinker step is.

The four counters do not partition the board. A dead cell that stays
dead is booked nowhere, so the counters add up to the births plus the
live cells, not to `size * size` (`Step.TallyBooksLiveCells`). In the
blinker step the two end cells of the bar have one live neighbour each.
They are booked as deaths of loneliness, and the four dead corners are
not booked (`Blinker.BlinkerStats`).
