/** A circuit breaker that opens after consecutive failures and half-opens a while after the last of them. */
module CircuitBreaker {
  import opened Words
  import opened Sums

  /** The counters; times are nanoseconds. */
  datatype Breaker = Breaker(last: int, failures: uint64, threshold: uint64, window: int) {
    /** Whether the pause since the last failure or reset is over. */
    predicate Expired(now: int) {
      now - last > window
    }

    predicate Admits(now: int) {
      Expired(now) || failures < threshold
    }

    function Reset(now: int): Breaker {
      this.(failures := 0, last := now)
    }

    function Fail(now: int): Breaker {
      this.(failures := (failures + 1) % TWO_64, last := now)
    }

    /** Asking whether a call may go ahead resets an expired breaker, at a second reading of the clock. */
    function Ask(now: int, later: int): Breaker {
      if Expired(now) then Reset(later) else this
    }
  }

  datatype Outcome = BreakerOpen | Failed | Succeeded

  class ConsecCircuitBreaker {
    var lastFailureTime: int
    var failures: uint64
    const failureThreshold: uint64
    const window: int

    ghost function State(): Breaker
      reads this
    {
      Breaker(lastFailureTime, failures, failureThreshold, window)
    }

    constructor (failureThreshold: uint64, window: int)
      ensures State() == Breaker(0, 0, failureThreshold, window)
    {
      this.failureThreshold, this.window := failureThreshold, window;
      lastFailureTime, failures := 0, 0;
    }

    method Reset(now: int)
      modifies this
      ensures State() == old(State()).Reset(now)
    {
      failures := 0;
      lastFailureTime := now;
    }

    method Fail(now: int)
      modifies this
      ensures State() == old(State()).Fail(now)
    {
      failures := (failures + 1) % TWO_64;
      lastFailureTime := now;
    }

    method Ready(now: int, later: int) returns (ready: bool)
      modifies this
      ensures ready <==> now - old(lastFailureTime) > window || old(failures) < failureThreshold
      ensures State() == if now - old(lastFailureTime) > window then Breaker(later, 0, failureThreshold, window)
                         else old(State())
    {
      if now - lastFailureTime > window {
        Reset(later);
        return true;
      }
      ready := failures < failureThreshold;
    }

    /** A call whose function fails or not; a function that is too slow counts as failed. */
    method Call(now: int, later: int, fails: bool, end: int) returns (r: Outcome)
      modifies this
      ensures r != BreakerOpen <==> now - old(lastFailureTime) > window || old(failures) < failureThreshold
      ensures r != BreakerOpen ==> r == (if fails then Failed else Succeeded) && lastFailureTime == end
      ensures r == Succeeded ==> failures == 0
      ensures r == Failed ==>
                failures == ((if now - old(lastFailureTime) > window then 0 else old(failures)) + 1) % TWO_64
      ensures r == BreakerOpen ==> State() == old(State())
      ensures State() == AfterCall(old(State()), Attempt(now, later, end), fails)
    {
      var ready := Ready(now, later);
      if !ready {
        return BreakerOpen;
      }
      if fails {
        Fail(end);
        r := Failed;
      } else {
        Reset(end);
        r := Succeeded;
      }
    }
  }

  /** The clock readings of one call: on arrival, at a reset, and when it is over. */
  datatype Attempt = Attempt(now: int, later: int, end: int)

  function AfterCall(b: Breaker, c: Attempt, fails: bool): Breaker {
    if !b.Admits(c.now) then b
    else if fails then b.Ask(c.now, c.later).Fail(c.end)
    else b.Ask(c.now, c.later).Reset(c.end)
  }

  // ----- what the failure counter counts

  /** What one call does to the breaker: it asks, and if it may go ahead it reports its end. */
  function CallOps(b: Breaker, c: Attempt, fails: bool): seq<Op> {
    [Ask(c.now, c.later)] +
    if c.now - b.last > b.window || b.failures < b.threshold
    then [if fails then Failure(c.end) else Success(c.end)] else []
  }

  /** What a run of calls does, each with its outcome should it go ahead. */
  function AllOps(b: Breaker, cs: seq<Attempt>, fails: seq<bool>): seq<Op>
    requires |cs| == |fails|
    decreases |cs|
  {
    if cs == [] then [] else CallOps(b, cs[0], fails[0]) + AllOps(AfterCall(b, cs[0], fails[0]), cs[1..], fails[1..])
  }

  function AfterCalls(b: Breaker, cs: seq<Attempt>, fails: seq<bool>): Breaker
    requires |cs| == |fails|
    decreases |cs|
  {
    if cs == [] then b else AfterCalls(AfterCall(b, cs[0], fails[0]), cs[1..], fails[1..])
  }

  lemma {:induction false} RunAppends(b: Breaker, x: seq<Op>, y: seq<Op>)
    ensures Run(b, x + y) == Run(Run(b, x), y)
    decreases |y|
  {
    if y == [] {
      assert x + y == x;
    } else {
      var n := |y| - 1;
      assert (x + y)[..|x| + n] == x + y[..n];
      RunAppends(b, x, y[..n]);
    }
  }

  lemma CallIsOps(b: Breaker, c: Attempt, fails: bool)
    ensures AfterCall(b, c, fails) == Run(b, CallOps(b, c, fails))
  {
    var ops := CallOps(b, c, fails);
    assert [ops[0]][..0] == [];
    assert Run(b, [ops[0]]) == Apply(b, ops[0]);
    if |ops| == 2 {
      assert ops[..1] == [ops[0]];
    }
  }

  /** A run of calls is a run of what they do, one after the other. */
  lemma {:induction false} CallsAreOps(b: Breaker, cs: seq<Attempt>, fails: seq<bool>)
    requires |cs| == |fails|
    ensures AfterCalls(b, cs, fails) == Run(b, AllOps(b, cs, fails))
    decreases |cs|
  {
    if cs != [] {
      var after := AfterCall(b, cs[0], fails[0]);
      CallIsOps(b, cs[0], fails[0]);
      CallsAreOps(after, cs[1..], fails[1..]);
      RunAppends(b, CallOps(b, cs[0], fails[0]), AllOps(after, cs[1..], fails[1..]));
    }
  }

  /** Over a run of calls from a new breaker the counter is the number of failed ones since the last reset. */
  lemma FailuresOfCalls(b: Breaker, cs: seq<Attempt>, fails: seq<bool>) returns (k: nat)
    requires b.failures == 0 && |cs| == |fails|
    ensures var ops := AllOps(b, cs, fails);
      && k <= |ops| && (k > 0 ==> ResetsAt(b, ops, k - 1)) && (forall i :: k <= i < |ops| ==> !ResetsAt(b, ops, i))
      && AfterCalls(b, cs, fails).failures == Failures(ops[k..]) % TWO_64
  {
    CallsAreOps(b, cs, fails);
    k := FailuresSinceReset(b, AllOps(b, cs, fails));
  }

  datatype Op = Ask(now: int, later: int) | Success(now: int) | Failure(now: int)

  function Apply(b: Breaker, op: Op): Breaker {
    match op
    case Ask(now, later) => b.Ask(now, later)
    case Success(now) => b.Reset(now)
    case Failure(now) => b.Fail(now)
  }

  function Run(b: Breaker, ops: seq<Op>): Breaker {
    if ops == [] then b else Apply(Run(b, ops[..|ops| - 1]), ops[|ops| - 1])
  }

  predicate ResetsAt(b: Breaker, ops: seq<Op>, i: nat)
    requires i < |ops|
  {
    ops[i].Success? || (ops[i].Ask? && Run(b, ops[..i]).Expired(ops[i].now))
  }

  function Failures(ops: seq<Op>): nat {
    if ops == [] then 0 else Failures(ops[..|ops| - 1]) + if ops[|ops| - 1].Failure? then 1 else 0
  }

  lemma OneMoreOp(b: Breaker, ops: seq<Op>, n: nat, k: nat)
    requires k <= n && |ops| == n + 1 && !ResetsAt(b, ops, n)
    requires Run(b, ops[..n]).failures == Failures(ops[..n][k..]) % TWO_64
    ensures Run(b, ops).failures == Failures(ops[k..]) % TWO_64
  {
    var since, last := ops[..n][k..], ops[n];
    assert ops[k..] == since + [last];
    FailuresSnoc(since, last);
    OneMore(Failures(since));
  }

  lemma FailuresSnoc(ops: seq<Op>, op: Op)
    ensures Failures(ops + [op]) == Failures(ops) + if op.Failure? then 1 else 0
  {
    assert (ops + [op])[..|ops|] == ops;
  }

  lemma OneMore(f: nat)
    ensures (f % TWO_64 + 1) % TWO_64 == (f + 1) % TWO_64
  {
  }

  /** Over any run the counter is the number of failures since the last reset, modulo 2^64. */
  lemma {:induction false} FailuresSinceReset(b: Breaker, ops: seq<Op>) returns (k: nat)
    requires b.failures == 0
    ensures k <= |ops| && (k > 0 ==> ResetsAt(b, ops, k - 1))
    ensures forall i :: k <= i < |ops| ==> !ResetsAt(b, ops, i)
    ensures Run(b, ops).failures == Failures(ops[k..]) % TWO_64
  {
    if ops == [] {
      k := 0;
    } else {
      var n := |ops| - 1;
      var front := ops[..n];
      if ResetsAt(b, ops, n) {
        k := n + 1;
      } else {
        k := FailuresSinceReset(b, front);
        forall i | k <= i < |ops| ensures !ResetsAt(b, ops, i) {
          if i < n {
            assert ops[..i] == front[..i];
            assert !ResetsAt(b, front, i);
          }
        }
        if k > 0 {
          assert ops[..k - 1] == front[..k - 1];
        }
        OneMoreOp(b, ops, n, k);
      }
    }
  }

  /**
   * After a failure at `t`, followed by any calls turned away within the window, a call is admitted
   * exactly when it arrives more than the window after `t`, or the threshold was not reached.
   */
  lemma {:induction false} Readmission(b: Breaker, t: int, asks: seq<Op>, now: int)
    requires forall i :: 0 <= i < |asks| ==> asks[i].Ask? && asks[i].now - t <= b.window
    ensures Run(b.Fail(t), asks) == b.Fail(t)
    ensures Run(b.Fail(t), asks).Admits(now) <==> now - t > b.window || (b.failures + 1) % TWO_64 < b.threshold
  {
    if asks != [] {
      Readmission(b, t, asks[..|asks| - 1], now);
    }
  }

  // ----- how many failing calls can get through

  /** Calls one after the other, by a clock that does not run backwards. */
  predicate Ordered(cs: seq<Attempt>, from: int) {
    cs == [] || (from <= cs[0].now <= cs[0].later <= cs[0].end && Ordered(cs[1..], cs[0].end))
  }

  /** How many of the calls, all failing, are admitted between `a` and `e`. */
  function Admitted(b: Breaker, cs: seq<Attempt>, a: int, e: int): nat
    decreases |cs|
  {
    if cs == [] then 0 else
      (if b.Admits(cs[0].now) && a <= cs[0].now <= e then 1 else 0) + Admitted(AfterCall(b, cs[0], true), cs[1..], a, e)
  }

  /** How many times `gap` apart fit between `x` and `e`. */
  function Epochs(x: int, e: int, gap: nat): nat
    requires gap > 0
    decreases e - x
  {
    if x > e then 0 else 1 + Epochs(x + gap, e, gap)
  }

  lemma {:induction false} TimesGrows(m: nat, n: nat, t: nat)
    requires m <= n
    ensures Times(m, t) <= Times(n, t)
    decreases n
  {
    if m < n {
      TimesGrows(m, n - 1, t);
    }
  }

  lemma {:induction false} EpochsShrink(x: int, y: int, e: int, gap: nat)
    requires gap > 0 && x <= y
    ensures Epochs(x, e, gap) >= Epochs(y, e, gap)
    decreases e - x
  {
    if y <= e {
      EpochsShrink(x + gap, y + gap, e, gap);
    }
  }

  lemma {:induction false} EpochsAre(x: int, l: nat, gap: nat)
    requires gap > 0
    ensures Epochs(x, x + l, gap) == l / gap + 1
    decreases l
  {
    if l >= gap {
      EpochsAre(x + gap, l - gap, gap);
      OneLess(l, gap);
    } else {
      assert Epochs(x + gap, x + l, gap) == 0;
    }
  }

  lemma OneLess(l: nat, gap: nat)
    requires gap > 0 && l >= gap
    ensures l / gap == (l - gap) / gap + 1
  {
    var q, r := (l - gap) / gap, (l - gap) % gap;
    assert q * gap + r == l - gap;
    QuotientIs(l, gap, q + 1, r);
  }

  lemma QuotientIs(l: nat, gap: nat, q: nat, r: nat)
    requires l == q * gap + r && r < gap
    ensures l / gap == q
  {
    var p := l / gap;
    assert p * gap + l % gap == l;
    if p < q { AtLeastOne(q - p, gap); }
    if p > q { AtLeastOne(p - q, gap); }
  }

  lemma AtLeastOne(d: nat, gap: nat)
    requires d > 0
    ensures d * gap >= gap
  {
  }

  /** How many failures the breaker still takes before it opens. */
  function Credit(b: Breaker): nat {
    if b.failures < b.threshold then b.threshold - b.failures else 0
  }

  /** How many calls one reset lets through. */
  function Share(b: Breaker): nat {
    if b.threshold == 0 then 1 else b.threshold
  }

  /** The failures that fit from a state on: the credit, then its share for every reset that can still happen. */
  function Allowance(b: Breaker, from: int, e: int, gap: nat): int
    requires gap > 0
  {
    var first := if from < b.last + gap then b.last + gap else from;
    Credit(b) + Times(Epochs(first, e, gap), Share(b))
  }

  ghost predicate IsGap(b: Breaker, gap: nat) {
    b.window >= 0 && gap == b.window + 1
  }

  /** An earlier start with `more` epochs in hand is worth at least their share more. */
  lemma EarlierIsMore(x: int, y: int, e: int, gap: nat, more: nat, t: nat)
    requires gap > 0 && more + Epochs(y, e, gap) <= Epochs(x, e, gap)
    ensures Times(more + Epochs(y, e, gap), t) <= Times(Epochs(x, e, gap), t)
  {
    TimesGrows(more + Epochs(y, e, gap), Epochs(x, e, gap), t);
  }

  /** One call, admitted or not, takes from the allowance what it uses. */
  lemma AllowanceStep(b: Breaker, c: Attempt, from: int, e: int, gap: nat)
    requires IsGap(b, gap) && b.last <= from <= c.now <= c.later <= c.end && c.now <= e
    ensures var after := AfterCall(b, c, true);
      (if b.Admits(c.now) then 1 else 0) + Allowance(after, c.end, e, gap) <= Allowance(b, from, e, gap)
  {
    var t := Share(b);
    var first := if from < b.last + gap then b.last + gap else from;
    if b.Expired(c.now) {
      var next := c.end + gap;
      EpochsShrink(first, c.now, e, gap);
      EpochsShrink(c.now + gap, next, e, gap);
      EarlierIsMore(first, next, e, gap, 1, t);
      assert AfterCall(b, c, true) == Breaker(c.end, 1, b.threshold, b.window);
    } else if b.failures < b.threshold {
      var next := c.end + gap;
      EpochsShrink(first, next, e, gap);
      EarlierIsMore(first, next, e, gap, 0, t);
      assert AfterCall(b, c, true) == Breaker(c.end, b.failures + 1, b.threshold, b.window);
    } else {
      var next := if c.end < b.last + gap then b.last + gap else c.end;
      EpochsShrink(first, next, e, gap);
      EarlierIsMore(first, next, e, gap, 0, t);
    }
  }

  lemma {:induction false} TooLate(b: Breaker, cs: seq<Attempt>, from: int, a: int, e: int)
    requires Ordered(cs, from) && from > e
    ensures Admitted(b, cs, a, e) == 0
    decreases |cs|
  {
    if cs != [] {
      TooLate(AfterCall(b, cs[0], true), cs[1..], cs[0].end, a, e);
    }
  }

  lemma AllowancePositive(b: Breaker, from: int, e: int, gap: nat)
    requires gap > 0
    ensures Allowance(b, from, e, gap) >= 0
  {
    var first := if from < b.last + gap then b.last + gap else from;
    TimesGrows(0, Epochs(first, e, gap), Share(b));
  }

  lemma {:induction false} WithinAllowance(b: Breaker, cs: seq<Attempt>, from: int, a: int, e: int, gap: nat)
    requires IsGap(b, gap) && Ordered(cs, from) && b.last <= from
    ensures Admitted(b, cs, a, e) <= Allowance(b, from, e, gap)
    decreases |cs|
  {
    AllowancePositive(b, from, e, gap);
    if cs != [] {
      var c := cs[0];
      if c.now > e {
        TooLate(AfterCall(b, c, true), cs[1..], c.end, a, e);
      } else {
        AllowanceStep(b, c, from, e, gap);
        WithinAllowance(AfterCall(b, c, true), cs[1..], c.end, a, e, gap);
      }
    }
  }

  /** From the start of the interval on, every admission belongs to a reset that could have happened there. */
  lemma {:induction false} WithinEpochs(b: Breaker, cs: seq<Attempt>, from: int, a: int, e: int, gap: nat)
    requires IsGap(b, gap) && Ordered(cs, from) && b.last <= from
    ensures Admitted(b, cs, a, e) <= Times(Epochs(a, e, gap), Share(b))
    decreases |cs|
  {
    TimesGrows(0, Epochs(a, e, gap), Share(b));
    if cs != [] {
      var c := cs[0];
      var after := AfterCall(b, c, true);
      if c.now > e {
        TooLate(after, cs[1..], c.end, a, e);
      } else if b.Admits(c.now) && a <= c.now {
        WithinAllowance(after, cs[1..], c.end, a, e, gap);
        EpochsShrink(a + gap, c.end + gap, e, gap);
        TimesGrows(Epochs(c.end + gap, e, gap), Epochs(a + gap, e, gap), Share(b));
      } else {
        WithinEpochs(after, cs[1..], c.end, a, e, gap);
      }
    }
  }

  /** The bound for any failing calls one after the other: a share of admissions per window, and one more. */
  function Bound(b: Breaker, l: nat): nat
    requires b.window >= 0
  {
    (l / (b.window + 1) + 1) * Share(b)
  }

  lemma BoundIs(b: Breaker, a: int, l: nat, gap: nat)
    requires IsGap(b, gap)
    ensures Times(Epochs(a, a + l, gap), Share(b)) == Bound(b, l)
  {
    EpochsAre(a, l, gap);
    TimesIsProduct(l / gap + 1, Share(b));
  }

  /** While every call fails, an interval of length `l` never sees more admissions than the bound. */
  lemma RateBound(b: Breaker, cs: seq<Attempt>, from: int, a: int, l: nat)
    requires b.window >= 0 && Ordered(cs, from) && b.last <= from
    ensures Admitted(b, cs, a, a + l) <= Bound(b, l)
  {
    var gap := b.window + 1;
    WithinEpochs(b, cs, from, a, a + l, gap);
    BoundIs(b, a, l, gap);
  }

  // ----- the bound is reached

  function Burst(n: nat, t: int): seq<Attempt> {
    if n == 0 then [] else [Attempt(t, t, t)] + Burst(n - 1, t)
  }

  /** A burst of `n` calls whenever the breaker has just become ready again. */
  function Bursts(t: int, e: int, gap: nat, n: nat): seq<Attempt>
    requires gap > 0
    decreases e - t
  {
    if t > e then [] else Burst(n, t) + Bursts(t + gap, e, gap, n)
  }

  lemma OneMoreFailure(b: Breaker, t: int)
    requires b.last == t && b.window >= 0 && b.failures < b.threshold
    ensures b.Admits(t) && AfterCall(b, Attempt(t, t, t), true) == b.(failures := b.failures + 1)
  {
  }

  lemma {:induction false} BurstAdmitted(b: Breaker, n: nat, t: int, rest: seq<Attempt>, a: int, e: int)
    requires b.last == t && b.window >= 0 && b.failures + n <= b.threshold && a <= t <= e
    ensures Admitted(b, Burst(n, t) + rest, a, e) == n + Admitted(b.(failures := b.failures + n), rest, a, e)
    decreases n
  {
    if n == 0 {
      assert Burst(n, t) + rest == rest;
    } else {
      var cs := Burst(n, t) + rest;
      assert cs[0] == Attempt(t, t, t) && cs[1..] == Burst(n - 1, t) + rest;
      OneMoreFailure(b, t);
      BurstAdmitted(b.(failures := b.failures + 1), n - 1, t, rest, a, e);
    }
  }

  /** A burst that finds the breaker expired is admitted as a whole. */
  lemma FirstBurst(b: Breaker, t: int, rest: seq<Attempt>, a: int, e: int, n: nat) returns (after: Breaker)
    requires b.window >= 0 && b.Expired(t) && n == Share(b) && a <= t <= e
    ensures Admitted(b, Burst(n, t) + rest, a, e) == n + Admitted(after, rest, a, e)
    ensures after.last == t && after.window == b.window && after.threshold == b.threshold
  {
    var once := Breaker(t, 1, b.threshold, b.window);
    var cs := Burst(n, t) + rest;
    assert cs[0] == Attempt(t, t, t) && cs[1..] == Burst(n - 1, t) + rest;
    assert AfterCall(b, cs[0], true) == once;
    if b.threshold == 0 {
      assert cs[1..] == rest;
      after := once;
    } else {
      BurstAdmitted(once, n - 1, t, rest, a, e);
      after := once.(failures := n);
    }
  }

  lemma {:induction false} BurstsAdmitted(b: Breaker, t: int, a: int, e: int, gap: nat, n: nat)
    requires IsGap(b, gap) && b.Expired(t) && n == Share(b) && a <= t
    ensures Admitted(b, Bursts(t, e, gap, n), a, e) == Times(Epochs(t, e, gap), n)
    decreases e - t
  {
    if t <= e {
      var after := FirstBurst(b, t, Bursts(t + gap, e, gap, n), a, e, n);
      BurstsAdmitted(after, t + gap, a, e, gap, n);
    }
  }

  lemma {:induction false} BurstOrdered(n: nat, t: int, rest: seq<Attempt>, from: int)
    requires from <= t && Ordered(rest, t) && n > 0
    ensures Ordered(Burst(n, t) + rest, from)
    decreases n
  {
    var cs := Burst(n, t) + rest;
    assert cs[0] == Attempt(t, t, t) && cs[1..] == Burst(n - 1, t) + rest;
    if n == 1 {
      assert cs[1..] == rest;
    } else {
      BurstOrdered(n - 1, t, rest, t);
    }
  }

  lemma {:induction false} BurstsOrdered(t: int, e: int, gap: nat, n: nat, from: int)
    requires gap > 0 && n > 0 && from <= t
    ensures Ordered(Bursts(t, e, gap, n), from)
    decreases e - t
  {
    if t <= e {
      BurstsOrdered(t + gap, e, gap, n, t);
      BurstOrdered(n, t, Bursts(t + gap, e, gap, n), from);
    }
  }

  /** The bound is exact: from any expired breaker some run of failing calls reaches it. */
  lemma RateBoundReached(b: Breaker, t: int, l: nat) returns (cs: seq<Attempt>)
    requires b.window >= 0 && b.Expired(t)
    ensures Ordered(cs, t) && Admitted(b, cs, t, t + l) == Bound(b, l)
  {
    var gap := b.window + 1;
    cs := Bursts(t, t + l, gap, Share(b));
    BurstsOrdered(t, t + l, gap, Share(b), t);
    BurstsAdmitted(b, t, t, t + l, gap, Share(b));
    BoundIs(b, t, l, gap);
  }
}
