/**
 Step statistics: how many cells were born, survived, died of loneliness
 and died of overcrowding. Counters are unbounded naturals.
 */
module Stats {
  import opened Rule

  datatype Stats = Stats(borns: nat, survivals: nat, loneliness: nat, overcrowding: nat)

  const Zero := Stats(0, 0, 0, 0)

  /** Field-wise sum: the reduction of per-worker records and the run total. */
  function Add(s: Stats, t: Stats): Stats {
    Stats(s.borns + t.borns, s.survivals + t.survivals,
          s.loneliness + t.loneliness, s.overcrowding + t.overcrowding)
  }

  /** Sum of all four counters. */
  function Total(s: Stats): nat {
    s.borns + s.survivals + s.loneliness + s.overcrowding
  }

  /** Deaths and survivals: the outcomes of cells that were alive. */
  function WasAlive(s: Stats): nat {
    s.survivals + s.loneliness + s.overcrowding
  }

  /** Book one outcome: the matching counter goes up by one, `Unchanged` books nothing. */
  function Record(s: Stats, o: Outcome): Stats {
    match o
    case Born => s.(borns := s.borns + 1)
    case Survival => s.(survivals := s.survivals + 1)
    case Loneliness => s.(loneliness := s.loneliness + 1)
    case Overcrowding => s.(overcrowding := s.overcrowding + 1)
    case Unchanged => s
  }

  /** Field-wise sum of a sequence of records, left to right. */
  function SumAll(ss: seq<Stats>): Stats {
    if |ss| == 0 then Zero else Add(SumAll(ss[..|ss| - 1]), ss[|ss| - 1])
  }

  /** Field-wise sum of the records `c(x)` for the indices `x` of `idxs`, left to right. */
  function SumOver(c: nat -> Stats, idxs: seq<nat>): Stats {
    if |idxs| == 0 then Zero else Add(SumOver(c, idxs[..|idxs| - 1]), c(idxs[|idxs| - 1]))
  }

  /** Summing one more index adds its record. */
  lemma SumOverSnoc(c: nat -> Stats, idxs: seq<nat>, x: nat)
    ensures SumOver(c, idxs + [x]) == Add(SumOver(c, idxs), c(x))
  {
    assert (idxs + [x])[..|idxs|] == idxs;
  }

  /** Every outcome but `Unchanged` is booked once; outcomes of live cells are booked as deaths or survivals. */
  lemma RecordCounts(s: Stats, o: Outcome)
    ensures Total(Record(s, o)) == Total(s) + (if o == Unchanged then 0 else 1)
    ensures WasAlive(Record(s, o)) == WasAlive(s) + (if o == Survival || o == Loneliness || o == Overcrowding then 1 else 0)
  {
  }

  /** Booking an outcome adds the record holding just that outcome. */
  lemma RecordAdds(s: Stats, o: Outcome)
    ensures Record(s, o) == Add(s, Record(Zero, o))
  {
  }

  /**
   Two partial sums `p` and `w`, of which at most one gains the record `u`:
   their total gains `u` exactly when one of them does.
   */
  lemma JoinGrow(p: Stats, p': Stats, w: Stats, w': Stats, u: Stats, first: bool, second: bool)
    requires !(first && second)
    requires first ==> p' == Add(p, u)
    requires !first ==> p' == p
    requires second ==> w' == Add(w, u)
    requires !second ==> w' == w
    ensures first || second ==> Add(p', w') == Add(Add(p, w), u)
    ensures !first && !second ==> Add(p', w') == Add(p, w)
  {
  }

  lemma AddZero(s: Stats)
    ensures Add(s, Zero) == s && Add(Zero, s) == s
  {
  }
}
