/**
 The transition rule of the Game of Life: the next value of one cell from
 its current value and its live-neighbour count, and the statistic that
 the change is booked under.
 */
module Rule {
  import opened Grid

  /** What happened to a cell; `Unchanged` (dead and still dead) is not counted anywhere. */
  datatype Outcome = Born | Survival | Loneliness | Overcrowding | Unchanged

  /** The next value of a cell together with its outcome. */
  datatype Fate = Fate(next: int, outcome: Outcome)

  /** Conway's rule B3/S23: a live cell lives on with 2 or 3 neighbours, a dead one comes alive with exactly 3. */
  predicate LivesOn(alive: bool, neighbours: int) {
    if alive then neighbours == 2 || neighbours == 3 else neighbours == 3
  }

  /**
   The worker's branch table. A live cell with fewer than 2 neighbours dies
   of loneliness, with 2 or 3 survives and keeps its value, with more than
   3 dies of overcrowding; a dead cell with exactly 3 is born as 1, and
   otherwise keeps its value.
   */
  function Transition(cell: int, a: int): (f: Fate)
    ensures Alive(f.next) <==> LivesOn(Alive(cell), a)
    ensures f.outcome == Born <==> !Alive(cell) && Alive(f.next)
    ensures f.outcome == Survival <==> Alive(cell) && Alive(f.next)
    ensures f.outcome == Loneliness <==> Alive(cell) && !Alive(f.next) && a < 2
    ensures f.outcome == Overcrowding <==> Alive(cell) && !Alive(f.next) && a > 3
    ensures f.outcome == Unchanged <==> !Alive(cell) && !Alive(f.next)
    ensures f.outcome == Born ==> f.next == 1
    ensures f.outcome != Born ==> f.next == 0 || f.next == cell
  {
    if Alive(cell) then
      if a < 2 then Fate(0, Loneliness)
      else if a == 2 || a == 3 then Fate(cell, Survival)
      // here a > 3 always holds; `thread` in gol.c tests it once more before writing
      else Fate(0, Overcrowding)
    else
      if a == 3 then Fate(1, Born)
      else Fate(cell, Unchanged)
  }

  /** A 0/1 cell stays a 0/1 cell. */
  lemma TransitionBinary(cell: int, a: int)
    requires cell == 0 || cell == 1
    ensures Transition(cell, a).next == 0 || Transition(cell, a).next == 1
  {
  }
}
