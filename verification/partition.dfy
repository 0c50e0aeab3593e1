/**
 The static stride partition of the linear cell indices `[0, size * size)`
 among the workers: worker `k` of `T` takes `k, k + T, k + 2T, ...`.
 */
module Partition {
  import opened Grid
  import opened Stats

  /** The indices `start, start + jump, start + 2 * jump, ...` that lie below `total`, in visiting order. */
  function Visits(start: nat, jump: nat, total: nat): seq<nat>
    requires jump > 0
    decreases total - start
  {
    if start >= total then [] else [start] + Visits(start + jump, jump, total)
  }

  /**
   The number of workers actually started: the requested count, lowered
   to the number of cells when there are fewer cells than that.
   */
  function EffectiveWorkers(threads: int, size: nat): (t: nat)
    requires threads >= 1
    ensures t <= threads && t <= Cells(size)
    ensures t == threads || t == Cells(size)
    ensures size > 0 ==> t >= 1
  {
    if threads > Cells(size) then Cells(size) else threads
  }

  /** Adding the divisor does not change the remainder. */
  lemma ModShift(s: nat, d: nat)
    requires d > 0
    ensures (s + d) % d == s % d
  {
    DivModUnique(d, s / d + 1, s % d);
    assert (s / d + 1) * d + s % d == s + d;
  }

  /** Two different numbers with the same remainder are at least a divisor apart. */
  lemma Gap(s: nat, x: nat, d: nat)
    requires d > 0 && s < x && x % d == s % d
    ensures s + d <= x
  {
    assert x - s == (x / d - s / d) * d;
    if x / d - s / d < 1 {
      assert false;
    }
    MulAtLeast(x / d - s / d, d);
  }

  /** A worker visits exactly the indices below `total`, from `start` on, that share `start`'s remainder. */
  lemma {:induction false} VisitsMember(start: nat, jump: nat, total: nat, x: nat)
    requires jump > 0
    ensures x in Visits(start, jump, total) <==> start <= x < total && x % jump == start % jump
    decreases total - start
  {
    if start < total {
      VisitsMember(start + jump, jump, total, x);
      ModShift(start, jump);
      if start < x && x % jump == start % jump {
        Gap(start, x, jump);
      }
    }
  }

  /** The `m`-th visited index is `start + m * jump`; the visit order is strictly increasing. */
  lemma {:induction false} VisitsShape(start: nat, jump: nat, total: nat)
    requires jump > 0
    ensures forall m :: 0 <= m < |Visits(start, jump, total)| ==> Visits(start, jump, total)[m] == start + m * jump
    ensures forall p, q :: 0 <= p < q < |Visits(start, jump, total)|
              ==> Visits(start, jump, total)[p] < Visits(start, jump, total)[q]
    ensures forall x :: x in Visits(start, jump, total) ==> x < total
    decreases total - start
  {
    if start < total {
      var v := Visits(start, jump, total);
      var rest := Visits(start + jump, jump, total);
      VisitsShape(start + jump, jump, total);
      forall m | 0 < m < |v|
        ensures v[m] == start + m * jump
      {
        assert v[m] == rest[m - 1] == start + jump + (m - 1) * jump;
      }
      forall p, q | 0 <= p < q < |v|
        ensures v[p] < v[q]
      {
        assert v[q] - v[p] == (q - p) * jump;
        MulAtLeast(q - p, jump);
      }
    }
  }

  /** Growing the bound by one appends `total` to the one worker whose residue it has. */
  lemma {:induction false} VisitsExtend(start: nat, jump: nat, total: nat)
    requires jump > 0
    ensures Visits(start, jump, total + 1)
            == if start <= total && total % jump == start % jump
               then Visits(start, jump, total) + [total]
               else Visits(start, jump, total)
    decreases total - start
  {
    if start < total {
      VisitsExtend(start + jump, jump, total);
      ModShift(start, jump);
      if total % jump == start % jump {
        Gap(start, total, jump);
      }
      var rest := Visits(start + jump, jump, total);
      if start <= total && total % jump == start % jump {
        assert [start] + (rest + [total]) == ([start] + rest) + [total];
      }
    } else if start == total {
      assert Visits(start + jump, jump, total + 1) == [];
    }
  }

  /** Cell `idx` is assigned to worker `k` if and only if `k` is `idx`'s residue modulo the worker count. */
  lemma Owner(t: nat, total: nat, idx: nat, k: nat)
    requires t > 0 && idx < total && k < t
    ensures idx in Visits(k, t, total) <==> k == idx % t
  {
    VisitsMember(k, t, total, idx);
    DivModUnique(t, 0, k);
    if k == idx % t {
      assert idx == (idx / t) * t + k;
      if idx / t > 0 {
        MulAtLeast(idx / t, t);
      }
    }
  }

  /** Every cell has exactly one writer: the set of workers whose assignment holds `idx` is `{idx % t}`. */
  lemma WrittenOnce(t: nat, total: nat, idx: nat)
    requires t > 0 && idx < total
    ensures (set k | 0 <= k < t && idx in Visits(k, t, total)) == {idx % t}
  {
    forall k | 0 <= k < t
      ensures idx in Visits(k, t, total) <==> k == idx % t
    {
      Owner(t, total, idx, k);
    }
  }

  /** Different workers never share a cell. */
  lemma Disjoint(t: nat, total: nat, k1: nat, k2: nat)
    requires t > 0 && k1 < t && k2 < t && k1 != k2
    ensures forall x :: x in Visits(k1, t, total) ==> x !in Visits(k2, t, total)
  {
    forall x | x in Visits(k1, t, total)
      ensures x !in Visits(k2, t, total)
    {
      VisitsShape(k1, t, total);
      Owner(t, total, x, k1);
      Owner(t, total, x, k2);
    }
  }

  /** Together the workers cover every cell. */
  lemma Complete(t: nat, total: nat, x: nat)
    requires t > 0 && x < total
    ensures exists k :: 0 <= k < t && x in Visits(k, t, total)
  {
    Owner(t, total, x, x % t);
  }

  /** The records of workers `0 .. k - 1` of `t`, each summed over its own stride below `m`, then added up in worker order. */
  function StrideSums(c: nat -> Stats, t: nat, k: nat, m: nat): Stats
    requires 0 < t
  {
    if k == 0 then Zero else Add(StrideSums(c, t, k - 1, m), SumOver(c, Visits(k - 1, t, m)))
  }

  /** Growing the bound by one adds index `m`'s record to worker `w`'s sum exactly when `w` is `m`'s residue `o`. */
  lemma SumOverGrow(c: nat -> Stats, t: nat, w: nat, m: nat, o: nat)
    requires w < t && o == m % t
    ensures o == w ==> SumOver(c, Visits(w, t, m + 1)) == Add(SumOver(c, Visits(w, t, m)), c(m))
    ensures o != w ==> SumOver(c, Visits(w, t, m + 1)) == SumOver(c, Visits(w, t, m))
  {
    VisitsExtend(w, t, m);
    DivModUnique(t, 0, w);
    if m < w {
      DivModUnique(t, 0, m);
    }
    var v := Visits(w, t, m);
    assert w <= m && m % t == w % t <==> o == w;
    if o == w {
      assert Visits(w, t, m + 1) == v + [m];
      SumOverSnoc(c, v, m);
    } else {
      assert Visits(w, t, m + 1) == v;
    }
  }

  /** Index `m` is summed by the one worker `o = m % t`, so it shows up once `k` passes that worker. */
  lemma {:induction false} StrideSumsGrow(c: nat -> Stats, t: nat, k: nat, m: nat, o: nat)
    requires 0 < t && k <= t && o == m % t
    ensures o < k ==> StrideSums(c, t, k, m + 1) == Add(StrideSums(c, t, k, m), c(m))
    ensures k <= o ==> StrideSums(c, t, k, m + 1) == StrideSums(c, t, k, m)
    decreases k, 2
  {
    if k > 0 {
      StrideSumsStep(c, t, k, m, o);
    } else {
      assert StrideSums(c, t, k, m + 1) == Zero && StrideSums(c, t, k, m) == Zero;
    }
  }

  /** One more worker: the first `k - 1` workers and worker `k - 1` each grow as stated, hence so do the first `k`. */
  lemma {:induction false} StrideSumsStep(c: nat -> Stats, t: nat, k: nat, m: nat, o: nat)
    requires 0 < t && 0 < k <= t && o == m % t
    ensures o < k ==> StrideSums(c, t, k, m + 1) == Add(StrideSums(c, t, k, m), c(m))
    ensures k <= o ==> StrideSums(c, t, k, m + 1) == StrideSums(c, t, k, m)
    decreases k, 1
  {
    EarlierWorkersGrow(c, t, k, m, o);
    LastWorkerGrow(c, t, k, m, o);
    var p, p' := StrideSums(c, t, k - 1, m), StrideSums(c, t, k - 1, m + 1);
    var w, w' := SumOver(c, Visits(k - 1, t, m)), SumOver(c, Visits(k - 1, t, m + 1));
    assert StrideSums(c, t, k, m + 1) == Add(p', w');
    assert StrideSums(c, t, k, m) == Add(p, w);
    JoinGrow(p, p', w, w', c(m), o < k - 1, o == k - 1);
  }

  /** `StrideSumsGrow` for the first `k - 1` workers, stated in the terms `StrideSums` unfolds to. */
  lemma EarlierWorkersGrow(c: nat -> Stats, t: nat, k: nat, m: nat, o: nat)
    requires 0 < t && 0 < k <= t && o == m % t
    ensures o < k - 1 ==> StrideSums(c, t, k - 1, m + 1) == Add(StrideSums(c, t, k - 1, m), c(m))
    ensures k - 1 <= o ==> StrideSums(c, t, k - 1, m + 1) == StrideSums(c, t, k - 1, m)
    decreases k, 0
  {
    StrideSumsGrow(c, t, k - 1, m, o);
  }

  /** `SumOverGrow` for worker `k - 1`, stated in the terms `StrideSums` unfolds to. */
  lemma LastWorkerGrow(c: nat -> Stats, t: nat, k: nat, m: nat, o: nat)
    requires 0 < k <= t && o == m % t
    ensures o == k - 1 ==> SumOver(c, Visits(k - 1, t, m + 1)) == Add(SumOver(c, Visits(k - 1, t, m)), c(m))
    ensures o != k - 1 ==> SumOver(c, Visits(k - 1, t, m + 1)) == SumOver(c, Visits(k - 1, t, m))
  {
    SumOverGrow(c, t, k - 1, m, o);
  }

  lemma {:induction false} StrideSumsEmpty(c: nat -> Stats, t: nat, k: nat)
    requires 0 < t
    ensures StrideSums(c, t, k, 0) == Zero
  {
    if k > 0 {
      StrideSumsEmpty(c, t, k - 1);
    }
  }

  /**
   However many workers share the indices below `m`, their sums added up
   equal the sum a single worker computes over all of them in order.
   */
  lemma {:induction false} StrideSumsWhole(c: nat -> Stats, t: nat, m: nat)
    requires 0 < t
    ensures StrideSums(c, t, t, m) == SumOver(c, Visits(0, 1, m))
  {
    if m == 0 {
      StrideSumsEmpty(c, t, t);
    } else {
      StrideSumsWhole(c, t, m - 1);
      StrideSumsGrowAll(c, t, m - 1);
      SumOverGrowAll(c, m - 1);
    }
  }

  /** With all `t` workers, index `m` is always summed by one of them. */
  lemma StrideSumsGrowAll(c: nat -> Stats, t: nat, m: nat)
    requires 0 < t
    ensures StrideSums(c, t, t, m + 1) == Add(StrideSums(c, t, t, m), c(m))
  {
    var o := m % t;
    StrideSumsGrow(c, t, t, m, o);
  }

  /** A single worker sums every index. */
  lemma SumOverGrowAll(c: nat -> Stats, m: nat)
    ensures SumOver(c, Visits(0, 1, m + 1)) == Add(SumOver(c, Visits(0, 1, m)), c(m))
  {
    SumOverGrow(c, 1, 0, m, m % 1);
    assert m % 1 == 0;
  }
}
