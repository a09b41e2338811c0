/** Iterating a step function, and counting what each step reports along the way. */
module Runs {

  /** The state after `t` steps. */
  function Iterate<S>(next: S -> S, s: S, t: nat): S {
    if t == 0 then s else next(Iterate(next, s, t - 1))
  }

  /** How many of the first `t` steps started from a state whose report is `i`. */
  function Hits<S>(next: S -> S, report: S -> int, s: S, t: nat, i: int): nat {
    if t == 0 then 0 else
      Hits(next, report, s, t - 1, i) + if report(Iterate(next, s, t - 1)) == i then 1 else 0
  }

  lemma {:induction false} IterateAdd<S>(next: S -> S, s: S, m: nat, t: nat)
    ensures Iterate(next, s, m + t) == Iterate(next, Iterate(next, s, m), t)
  {
    if t > 0 {
      IterateAdd(next, s, m, t - 1);
    }
  }

  lemma {:induction false} HitsAdd<S>(next: S -> S, report: S -> int, s: S, m: nat, t: nat, i: int)
    ensures Hits(next, report, s, m + t, i)
         == Hits(next, report, s, m, i) + Hits(next, report, Iterate(next, s, m), t, i)
  {
    if t > 0 {
      HitsAdd(next, report, s, m, t - 1, i);
      IterateAdd(next, s, m, t - 1);
    }
  }
}
