/** Smooth weighted round robin: the in-place selection loop, and the fairness of whole runs. */
module WeightedRoundRobin {
  import opened Sums
  import opened Runs

  /** One candidate server; the selection loop updates its two counters in place. */
  class Weighted {
    const server: string
    const weight: int
    var currentWeight: int
    var effectiveWeight: int

    constructor (server: string, weight: int)
      ensures this.server == server && this.weight == weight
      ensures currentWeight == 0 && effectiveWeight == weight
    {
      this.server, this.weight := server, weight;
      currentWeight, effectiveWeight := 0, weight;
    }
  }

  /** What one position of the server list holds: nothing, or a server with its counters. */
  datatype Slot = Vacant | Entry(server: string, weight: int, current: int, effective: int)

  type Slots = seq<Slot>

  ghost function View(w: Weighted?): Slot
    reads w
  {
    if w == null then Vacant else Entry(w.server, w.weight, w.currentWeight, w.effectiveWeight)
  }

  ghost function Snapshot(servers: seq<Weighted?>): (ss: Slots)
    reads servers
    ensures |ss| == |servers|
  {
    seq(|servers|, i requires 0 <= i < |servers| reads servers => View(servers[i]))
  }

  /** No server object occupies two positions, as in every list the selectors build. */
  ghost predicate Distinct(servers: seq<Weighted?>) {
    forall i, j :: 0 <= i < j < |servers| && servers[i] != null ==> servers[i] != servers[j]
  }

  // ----- one selection, as a function of the list

  function Advance(s: Slot): Slot {
    match s
    case Vacant => Vacant
    case Entry(n, w, c, e) => Entry(n, w, c + e, if e < w then e + 1 else e)
  }

  function AdvanceAll(ss: Slots): (r: Slots)
    ensures |r| == |ss|
  {
    seq(|ss|, i requires 0 <= i < |ss| => Advance(ss[i]))
  }

  /** The first entry that beats every entry before it, or -1 when the list holds no entry. */
  function Best(ss: Slots): (b: int)
    ensures -1 <= b < |ss|
    ensures b == -1 <==> forall i :: 0 <= i < |ss| ==> ss[i].Vacant?
    ensures b >= 0 ==> ss[b].Entry?
    ensures forall i :: 0 <= i < |ss| && ss[i].Entry? ==>
              ss[i].current <= ss[b].current && (i < b ==> ss[i].current < ss[b].current)
  {
    if ss == [] then -1 else
      var n := |ss| - 1;
      var b := Best(ss[..n]);
      if ss[n].Entry? && (b == -1 || ss[n].current > ss[b].current) then n else b
  }

  function Current(s: Slot): int { if s.Entry? then s.current else 0 }
  function Effective(s: Slot): int { if s.Entry? then s.effective else 0 }
  function Weight(s: Slot): int { if s.Entry? then s.weight else 0 }

  function Currents(ss: Slots): (r: seq<int>)
    ensures |r| == |ss|
  { seq(|ss|, i requires 0 <= i < |ss| => Current(ss[i])) }

  function Effectives(ss: Slots): (r: seq<int>)
    ensures |r| == |ss|
  { seq(|ss|, i requires 0 <= i < |ss| => Effective(ss[i])) }

  function Weights(ss: Slots): (r: seq<int>)
    ensures |r| == |ss|
  { seq(|ss|, i requires 0 <= i < |ss| => Weight(ss[i])) }

  function TotalWeight(ss: Slots): int { Sum(Weights(ss)) }

  /** The index a selection returns (-1 for nil). */
  function Pick(ss: Slots): (b: int)
    ensures -1 <= b < |ss|
  {
    Best(AdvanceAll(ss))
  }

  /** The list after one selection. */
  function Next(ss: Slots): (r: Slots)
    ensures |r| == |ss|
  {
    var a := AdvanceAll(ss);
    var b := Best(a);
    if b == -1 then a else a[b := a[b].(current := a[b].current - Sum(Effectives(ss)))]
  }

  /** The first `i` servers have had their turn and the others have not. */
  ghost predicate Advanced(servers: seq<Weighted?>, before: Slots, i: nat)
    reads servers
  {
    && |before| == |servers| && i <= |servers|
    && forall k :: 0 <= k < |servers| ==> View(servers[k]) == if k < i then Advance(before[k]) else before[k]
  }

  /** One server's turn in the selection loop. */
  method AdvanceOne(servers: seq<Weighted?>, ghost before: Slots, i: nat)
    requires i < |servers| && servers[i] != null
    requires Distinct(servers) && Advanced(servers, before, i)
    modifies servers[i]
    ensures Advanced(servers, before, i + 1)
  {
    var w := servers[i];
    assert View(servers[i]) == before[i];
    w.currentWeight := w.currentWeight + w.effectiveWeight;
    if w.effectiveWeight < w.weight {
      w.effectiveWeight := w.effectiveWeight + 1;
    }
    assert View(servers[i]) == Advance(before[i]);
    forall k | 0 <= k < |servers| && k != i ensures View(servers[k]) == old(View(servers[k])) {
    }
  }

  /** The best of the first `i` servers after their turns. */
  ghost function BestOfFirst(ss: Slots, i: nat): (b: int)
    requires i <= |ss|
    ensures -1 <= b < i && (b >= 0 ==> ss[b].Entry?)
  {
    assert forall k :: 0 <= k < i ==> AdvanceAll(ss)[..i][k] == Advance(ss[k]);
    Best(AdvanceAll(ss)[..i])
  }

  lemma BestOfNext(ss: Slots, i: nat)
    requires i < |ss|
    ensures var b := BestOfFirst(ss, i);
            BestOfFirst(ss, i + 1) ==
              if ss[i].Entry? && (b == -1 || Advance(ss[i]).current > Advance(ss[b]).current) then i else b
  {
    assert AdvanceAll(ss)[..i + 1][..i] == AdvanceAll(ss)[..i];
    assert AdvanceAll(ss)[..i + 1][i] == Advance(ss[i]);
  }

  /** The effective weights of the first `i` servers, added up. */
  ghost function TotalOfFirst(ss: Slots, i: nat): int
    requires i <= |ss|
  {
    Sum(Effectives(ss)[..i])
  }

  lemma TotalOfNext(ss: Slots, i: nat)
    requires i < |ss|
    ensures TotalOfFirst(ss, i + 1) == TotalOfFirst(ss, i) + Effective(ss[i])
  {
    assert Effectives(ss)[..i + 1] == Effectives(ss)[..i] + [Effective(ss[i])];
    SumSnoc(Effectives(ss)[..i], Effective(ss[i]));
  }

  /** The loop of a selection: every server takes its turn, and the best one is remembered. */
  method AdvanceServers(servers: seq<Weighted?>) returns (best: Weighted?, total: int, ghost b: int)
    requires Distinct(servers)
    modifies servers
    ensures Advanced(servers, old(Snapshot(servers)), |servers|)
    ensures b == BestOfFirst(old(Snapshot(servers)), |servers|)
    ensures total == TotalOfFirst(old(Snapshot(servers)), |servers|)
    ensures best == if b == -1 then null else servers[b]
  {
    ghost var before := Snapshot(servers);
    best, total, b := null, 0, -1;
    for i := 0 to |servers|
      invariant Advanced(servers, before, i)
      invariant b == BestOfFirst(before, i)
      invariant total == TotalOfFirst(before, i)
      invariant best == if b == -1 then null else servers[b]
    {
      TotalOfNext(before, i);
      BestOfNext(before, i);
      var w := servers[i];
      assert View(servers[i]) == before[i];
      if w == null {
        continue;
      }
      total := total + w.effectiveWeight;
      AdvanceOne(servers, before, i);
      assert View(servers[i]) == Advance(before[i]);
      assert best != null ==> View(servers[b]) == Advance(before[b]);
      if best == null || w.currentWeight > best.currentWeight {
        best := w;
        b := i;
      }
    }
  }

  /** After the turns of all servers the best one is the pick and the total is complete. */
  lemma AllServed(ss: Slots, n: nat)
    requires n == |ss|
    ensures BestOfFirst(ss, n) == Pick(ss) && TotalOfFirst(ss, n) == Sum(Effectives(ss))
  {
    assert AdvanceAll(ss)[..n] == AdvanceAll(ss);
    assert Effectives(ss)[..n] == Effectives(ss);
  }

  /** A selection: it picks and updates exactly as `Pick` and `Next` say. */
  method NextWeighted(servers: seq<Weighted?>) returns (best: Weighted?)
    requires Distinct(servers)
    modifies servers
    ensures Snapshot(servers) == Next(old(Snapshot(servers)))
    ensures best == (var b := Pick(old(Snapshot(servers))); if b == -1 then null else servers[b])
  {
    ghost var before := Snapshot(servers);
    var total;
    ghost var b;
    best, total, b := AdvanceServers(servers);
    AllServed(before, |servers|);
    if best != null {
      Charge(best, total, servers, before, b);
    }
  }

  /** The picked server pays the total. */
  method Charge(best: Weighted, total: int, ghost servers: seq<Weighted?>, ghost before: Slots, ghost b: nat)
    requires Distinct(servers) && Advanced(servers, before, |servers|)
    requires b < |servers| && servers[b] == best && b == Pick(before) && total == Sum(Effectives(before))
    modifies best
    ensures Snapshot(servers) == Next(before)
  {
    assert View(servers[b]) == Advance(before[b]) == AdvanceAll(before)[b];
    best.currentWeight := best.currentWeight - total;
    forall k | 0 <= k < |servers| ensures View(servers[k]) == Next(before)[k] {
      assert k != b ==> View(servers[k]) == old(View(servers[k]));
    }
  }

  /**
   * What a selection does to each server, and whom it picks: every server gains its effective weight, which
   * climbs by one until it is the weight again; the first server with the most then pays what all of them
   * gained, and nobody is picked only from a list without servers.
   */
  lemma SelectionIs(ss: Slots, i: nat)
    requires i < |ss|
    ensures ss[i].Vacant? ==> Next(ss)[i] == Vacant && Pick(ss) != i
    ensures ss[i].Entry? ==>
      && Pick(ss) >= 0 && ss[Pick(ss)].Entry?
      && Next(ss)[i].Entry? && Next(ss)[i].server == ss[i].server && Next(ss)[i].weight == ss[i].weight
      && Next(ss)[i].current == ss[i].current + ss[i].effective - (if Pick(ss) == i then Sum(Effectives(ss)) else 0)
      && Next(ss)[i].effective == ss[i].effective + (if ss[i].effective < ss[i].weight then 1 else 0)
    ensures ss[i].Entry? ==>
      var b := ss[Pick(ss)];
      && ss[i].current + ss[i].effective <= b.current + b.effective
      && (i < Pick(ss) ==> ss[i].current + ss[i].effective < b.current + b.effective)
  {
    var a, b := AdvanceAll(ss), Pick(ss);
    assert a[i] == Advance(ss[i]);
    if b >= 0 {
      assert a[b] == Advance(ss[b]);
    }
  }

  // ----- whole runs

  /** The list after `t` selections. */
  function Run(ss: Slots, t: nat): (r: Slots)
    ensures |r| == |ss|
  {
    RunLength(ss, t);
    Iterate(Next, ss, t)
  }

  lemma {:induction false} RunLength(ss: Slots, t: nat)
    ensures |Iterate(Next, ss, t)| == |ss|
  {
    if t > 0 {
      RunLength(ss, t - 1);
    }
  }

  lemma RunNext(ss: Slots, s: nat)
    ensures Run(ss, s + 1) == Next(Run(ss, s))
  {
  }

  /** How many of the first `t` selections returned position `i`. */
  function Picks(ss: Slots, t: nat, i: nat): nat {
    Hits(Next, Pick, ss, t, i)
  }

  function PickCounts(ss: Slots, t: nat): (r: seq<int>)
    ensures |r| == |ss|
  { seq(|ss|, i requires 0 <= i < |ss| => Picks(ss, t, i)) }

  /** How the selectors start: zero counters, effective weight equal to a non-negative weight. */
  ghost predicate Initial(ss: Slots) {
    forall i :: 0 <= i < |ss| && ss[i].Entry? ==>
      ss[i].current == 0 && ss[i].effective == ss[i].weight >= 0
  }

  /** Same servers as `ss`, with every effective weight at its full value. */
  ghost predicate SteadyLike(ss: Slots, r: Slots) {
    && |r| == |ss|
    && forall i :: 0 <= i < |ss| ==>
         if ss[i].Vacant? then r[i].Vacant?
         else r[i].Entry? && r[i] == ss[i].(current := r[i].current) && r[i].effective == r[i].weight
  }

  /** A selection moves weight between servers but never creates or destroys any. */
  lemma SelectionConservesCurrents(ss: Slots)
    ensures Sum(Currents(Next(ss))) == Sum(Currents(ss))
  {
    var a := AdvanceAll(ss);
    SumAdd(Currents(ss), Effectives(ss), Currents(a));
    var b := Best(a);
    if b == -1 {
      forall i | 0 <= i < |ss| ensures Current(Next(ss)[i]) == Current(ss[i]) {
        assert a[i] == Advance(ss[i]);
      }
      assert Currents(Next(ss)) == Currents(ss);
    } else {
      var v := Current(a[b]) - Sum(Effectives(ss));
      SumUpdate(Currents(a), b, v);
      assert Currents(Next(ss)) == Currents(a)[b := v];
    }
  }

  /** The sum of the counters is the same at every point of every run, from any starting counters. */
  lemma {:induction false} RunConservesCurrents(ss: Slots, t: nat)
    ensures Sum(Currents(Run(ss, t))) == Sum(Currents(ss))
  {
    if t > 0 {
      RunConservesCurrents(ss, t - 1);
      SelectionConservesCurrents(Run(ss, t - 1));
    }
  }

  /** A steady selection keeps the list steady and picks a server with the largest advanced counter. */
  lemma SteadyStep(ss: Slots, r: Slots)
    requires SteadyLike(ss, r)
    ensures SteadyLike(ss, Next(r))
    ensures Effectives(r) == Weights(ss)
    ensures Pick(r) >= 0 ==> ss[Pick(r)].Entry?
  {
    assert Effectives(r) == Weights(ss);
    assert forall i :: 0 <= i < |ss| ==> AdvanceAll(r)[i] == Advance(r[i]);
  }

  /** In a steady selection every counter gains its weight and the picked one pays the total. */
  lemma SteadyCounter(ss: Slots, r: Slots, i: nat)
    requires SteadyLike(ss, r) && i < |ss|
    ensures Current(Next(r)[i]) == Current(r[i]) + Weight(ss[i]) - if i == Pick(r) then TotalWeight(ss) else 0
  {
    SteadyStep(ss, r);
    assert AdvanceAll(r)[i] == Advance(r[i]);
  }

  /** The pick has a positive advanced counter as soon as the total weight is positive. */
  lemma SteadyPickPositive(ss: Slots, r: Slots)
    requires SteadyLike(ss, r) && Sum(Currents(r)) == 0 && TotalWeight(ss) > 0
    ensures Pick(r) >= 0 && Current(r[Pick(r)]) + Weight(ss[Pick(r)]) > 0
  {
    var a := AdvanceAll(r);
    SteadyStep(ss, r);
    SumAdd(Currents(r), Weights(ss), Currents(a));
    var k := PositiveElement(Currents(a));
    assert a[k].Entry? && a[k].current <= a[Best(a)].current;
    assert a[Best(a)] == Advance(r[Best(a)]);
  }

  /** What every state of a run satisfies, apart from the counts. */
  lemma {:induction false} RunSteady(ss: Slots, t: nat)
    requires Initial(ss) && TotalWeight(ss) > 0
    ensures SteadyLike(ss, Run(ss, t))
    ensures Sum(Currents(Run(ss, t))) == 0
    ensures forall i :: 0 <= i < |ss| ==> Current(Run(ss, t)[i]) > -TotalWeight(ss)
  {
    if t == 0 {
      SumOfZeros(Currents(ss));
    } else {
      var s := t - 1;
      RunSteady(ss, s);
      var r := Run(ss, s);
      RunNext(ss, s);
      SteadyStep(ss, r);
      SelectionConservesCurrents(r);
      StaysAbove(ss, r, TotalWeight(ss));
    }
  }

  /** One steady selection keeps every counter above minus the total weight. */
  lemma StaysAbove(ss: Slots, r: Slots, W: int)
    requires Initial(ss) && W == TotalWeight(ss) > 0 && SteadyLike(ss, r) && Sum(Currents(r)) == 0
    requires forall i :: 0 <= i < |ss| ==> Current(r[i]) > -W
    ensures forall i :: 0 <= i < |ss| ==> Current(Next(r)[i]) > -W
  {
    SteadyPickPositive(ss, r);
    forall i | 0 <= i < |ss| ensures Current(Next(r)[i]) > -W {
      SteadyCounter(ss, r, i);
      assert Weight(ss[i]) >= 0;
    }
  }

  /** Counter `c` of a server of weight `w`, picked `n` of `t` times when the weights add up to `W`. */
  ghost predicate Balanced(c: int, t: nat, w: int, W: int, n: nat) {
    c == Times(t, w) - Times(n, W)
  }

  lemma BalancedProducts(c: int, t: nat, w: int, W: int, n: nat)
    requires Balanced(c, t, w, W, n)
    ensures c == t * w - n * W
  {
    TimesIsProduct(t, w);
    TimesIsProduct(n, W);
  }

  /** Each counter is an exact balance: turns earned by weight, less turns taken at full price. */
  lemma {:induction false} Balance(ss: Slots, t: nat, i: nat)
    requires Initial(ss) && TotalWeight(ss) > 0 && i < |ss|
    ensures Balanced(Current(Run(ss, t)[i]), t, Weight(ss[i]), TotalWeight(ss), Picks(ss, t, i))
  {
    if t > 0 {
      var s := t - 1;
      Balance(ss, s, i);
      OneTurn(ss, s, i);
      BalanceStep(Current(Run(ss, s)[i]), Current(Run(ss, s + 1)[i]), s, Weight(ss[i]), TotalWeight(ss),
                  Picks(ss, s, i), Picks(ss, s + 1, i));
    }
  }

  lemma BalanceStep(c: int, c': int, t: nat, w: int, W: int, n: nat, n': nat)
    requires Balanced(c, t, w, W, n)
    requires (n' == n && c' == c + w) || (n' == n + 1 && c' == c + w - W)
    ensures Balanced(c', t + 1, w, W, n')
  {
  }

  /** What one more selection does to one server. */
  lemma OneTurn(ss: Slots, t: nat, i: nat)
    requires Initial(ss) && TotalWeight(ss) > 0 && i < |ss|
    ensures var c, c' := Current(Run(ss, t)[i]), Current(Run(ss, t + 1)[i]);
            if Pick(Run(ss, t)) == i
            then Picks(ss, t + 1, i) == Picks(ss, t, i) + 1 && c' == c + Weight(ss[i]) - TotalWeight(ss)
            else Picks(ss, t + 1, i) == Picks(ss, t, i) && c' == c + Weight(ss[i])
  {
    RunSteady(ss, t);
    SteadyCounter(ss, Run(ss, t), i);
  }

  lemma {:induction false} PicksAddUp(ss: Slots, t: nat)
    requires Initial(ss) && TotalWeight(ss) > 0
    ensures Sum(PickCounts(ss, t)) == t
  {
    if t == 0 {
      SumOfZeros(PickCounts(ss, 0));
    } else {
      var s := t - 1;
      PicksAddUp(ss, s);
      OneMorePick(ss, s, PickCounts(ss, s), PickCounts(ss, t));
    }
  }

  lemma OneMorePick(ss: Slots, s: nat, before: seq<int>, after: seq<int>)
    requires Initial(ss) && TotalWeight(ss) > 0
    requires before == PickCounts(ss, s) && after == PickCounts(ss, s + 1)
    ensures Sum(after) == Sum(before) + 1
  {
    var b := PickInRange(ss, s);
    CountsNext(ss, s, b, before, after);
    CountPick(before, after, b);
  }

  lemma PickInRange(ss: Slots, s: nat) returns (b: nat)
    requires Initial(ss) && TotalWeight(ss) > 0
    ensures b == Pick(Run(ss, s)) && b < |ss|
  {
    RunSteady(ss, s);
    SteadyPickPositive(ss, Run(ss, s));
    b := Pick(Run(ss, s));
  }

  lemma CountsNext(ss: Slots, s: nat, b: nat, before: seq<int>, after: seq<int>)
    requires b == Pick(Run(ss, s)) && before == PickCounts(ss, s) && after == PickCounts(ss, s + 1)
    ensures forall i :: 0 <= i < |ss| ==> after[i] == before[i] + if b == i then 1 else 0
  {
  }

  lemma CountPick(before: seq<int>, after: seq<int>, b: nat)
    requires |before| == |after| && b < |before|
    requires forall i :: 0 <= i < |before| ==> after[i] == before[i] + if b == i then 1 else 0
    ensures Sum(after) == Sum(before) + 1
  {
    SumUpdate(before, b, before[b] + 1);
    assert after == before[b := before[b] + 1];
  }

  lemma BelowOneTurn(c: int, W: int, w: int, n: nat)
    requires W > 0 && c > -W && Balanced(c, W, w, W, n)
    ensures n <= w
    ensures n == w ==> c == 0
  {
    BalancedProducts(c, W, w, W, n);
    if n > w {
      assert n * W == W * w + W + W * (n - w - 1);
      ProductNonNegative(W, n - w - 1);
    }
  }

  /** After as many selections as the total weight, every server was picked exactly by its weight. */
  lemma FirstPeriodExact(ss: Slots)
    requires Initial(ss) && TotalWeight(ss) > 0
    ensures PickCounts(ss, TotalWeight(ss)) == Weights(ss)
    ensures Run(ss, TotalWeight(ss)) == ss
  {
    var W := TotalWeight(ss);
    var ns, ws := PickCounts(ss, W), Weights(ss);
    RunSteady(ss, W);
    forall i | 0 <= i < |ss| ensures ns[i] <= ws[i] && (ns[i] == ws[i] ==> Current(Run(ss, W)[i]) == 0) {
      Balance(ss, W, i);
      BelowOneTurn(Current(Run(ss, W)[i]), W, Weight(ss[i]), Picks(ss, W, i));
    }
    PicksAddUp(ss, W);
    EqualByDomination(ns, ws);
    assert forall i :: 0 <= i < |ss| ==> ns[i] == ws[i] && Run(ss, W)[i] == ss[i];
  }

  /** A run that is back where it started repeats itself. */
  lemma Periodic(ss: Slots, m: nat, t: nat, i: nat)
    requires Run(ss, m) == ss
    ensures Run(ss, m + t) == Run(ss, t)
    ensures Picks(ss, m + t, i) == Picks(ss, m, i) + Picks(ss, t, i)
  {
    IterateAdd(Next, ss, m, t);
    HitsAdd(Next, Pick, ss, m, t, i);
  }

  /**
   * Exact fairness: every window of as many consecutive selections as the total weight, wherever it
   * starts, picks each server exactly by its weight and restores every counter.
   */
  lemma ExactFairness(ss: Slots, W: nat, t: nat, i: nat)
    requires Initial(ss) && W == TotalWeight(ss) > 0 && i < |ss|
    ensures Picks(ss, W + t, i) - Picks(ss, t, i) == Weight(ss[i])
    ensures Run(ss, W + t) == Run(ss, t)
  {
    FirstPeriodExact(ss);
    assert PickCounts(ss, W)[i] == Weights(ss)[i];
    Periodic(ss, W, t, i);
  }

  function Present(ss: Slots): (r: seq<int>)
    ensures |r| == |ss|
  { seq(|ss|, i requires 0 <= i < |ss| => if ss[i].Entry? then 1 else 0) }

  /** The number of servers in the list. */
  function Servers(ss: Slots): int { Sum(Present(ss)) }

  /** One counter of a zero-sum list is bounded above when all of them are bounded below. */
  lemma UpperFromLower(r: Slots, W: int, servers: int, i: nat)
    requires i < |r| && r[i].Entry? && Sum(Currents(r)) == 0 && servers == Servers(r)
    requires forall j :: 0 <= j < |r| ==> Current(r[j]) > -W
    ensures Current(r[i]) <= (servers - 1) * (W - 1)
  {
    var lo := 1 - W;
    var floor := seq(|r|, j requires 0 <= j < |r| => if r[j].Entry? then lo else 0);
    SumScale(Present(r), floor, lo);
    SumUpdate(Currents(r), i, lo);
    EqualByDomination(floor, Currents(r)[i := lo]);
    OneForm(servers, W, lo);
  }

  lemma OneForm(servers: int, W: int, lo: int)
    requires lo == 1 - W
    ensures lo - lo * servers == (servers - 1) * (W - 1)
  {
  }

  /**
   * Deviation at every prefix of a run: counters stay within fixed bounds, so the number of picks
   * never runs ahead of the proportional share by a whole turn nor lags by more than one turn per rival.
   */
  lemma PrefixDeviation(ss: Slots, t: nat, i: nat)
    requires Initial(ss) && TotalWeight(ss) > 0 && i < |ss| && ss[i].Entry?
    ensures 1 - TotalWeight(ss) <= Current(Run(ss, t)[i]) <= (Servers(ss) - 1) * (TotalWeight(ss) - 1)
    ensures Picks(ss, t, i) * TotalWeight(ss) < t * Weight(ss[i]) + TotalWeight(ss)
    ensures Picks(ss, t, i) * TotalWeight(ss) >= t * Weight(ss[i]) - (Servers(ss) - 1) * (TotalWeight(ss) - 1)
  {
    var c := CounterBounds(ss, t, i, TotalWeight(ss), Servers(ss));
    Deviation(c, t, Weight(ss[i]), TotalWeight(ss), Picks(ss, t, i), (Servers(ss) - 1) * (TotalWeight(ss) - 1));
  }

  lemma CounterBounds(ss: Slots, t: nat, i: nat, W: int, servers: int) returns (c: int)
    requires Initial(ss) && W == TotalWeight(ss) > 0 && i < |ss| && ss[i].Entry? && servers == Servers(ss)
    ensures c == Current(Run(ss, t)[i]) && Balanced(c, t, Weight(ss[i]), W, Picks(ss, t, i))
    ensures -W < c <= (servers - 1) * (W - 1)
  {
    var r := Run(ss, t);
    c := Current(r[i]);
    RunSteady(ss, t);
    SameServers(ss, r);
    UpperFromLower(r, W, servers, i);
    Balance(ss, t, i);
  }

  lemma SameServers(ss: Slots, r: Slots)
    requires SteadyLike(ss, r)
    ensures Servers(r) == Servers(ss)
  {
    assert Present(r) == Present(ss);
  }

  lemma Deviation(c: int, t: nat, w: int, W: int, n: nat, top: int)
    requires Balanced(c, t, w, W, n) && -W < c <= top
    ensures t * w - top <= n * W < t * w + W
  {
    BalancedProducts(c, t, w, W, n);
  }

  /** Every server stays strictly less than one turn per rival behind its share. */
  ghost predicate LagsStrictly(ss: Slots, W: int) {
    forall t: nat, i: nat :: i < |ss| && ss[i].Entry? ==>
      Picks(ss, t, i) * W > t * Weight(ss[i]) - (Servers(ss) - 1) * W
  }

  lemma StrictBound(p: int, share: int, servers: int, W: int)
    requires W > 0 && servers > 1 && p >= share - (servers - 1) * (W - 1)
    ensures p > share - (servers - 1) * W
  {
    assert (servers - 1) * (W - 1) == (servers - 1) * W - (servers - 1);
  }

  /** The lag is strictly below one turn per rival exactly when there are rivals. */
  lemma StrictLag(ss: Slots, W: int)
    requires Initial(ss) && W == TotalWeight(ss) > 0
    ensures LagsStrictly(ss, W) <==> Servers(ss) > 1
  {
    if Servers(ss) > 1 {
      forall t: nat, i: nat | i < |ss| && ss[i].Entry?
        ensures Picks(ss, t, i) * W > t * Weight(ss[i]) - (Servers(ss) - 1) * W
      {
        PrefixDeviation(ss, t, i);
        StrictBound(Picks(ss, t, i) * W, t * Weight(ss[i]), Servers(ss), W);
      }
    } else {
      var i := PickInRange(ss, 0);
      OnePresent(ss, i);
      assert Picks(ss, 0, i) == 0;
    }
  }

  /** A pick is a server, so there is at least one. */
  lemma OnePresent(ss: Slots, i: nat)
    requires i < |ss| && i == Pick(Run(ss, 0))
    ensures ss[i].Entry? && Servers(ss) >= 1
  {
    ElementAtMostSum(Present(ss), i);
  }

  lemma RoomForOneTurn(c: int, w: int, n: int, W: int, limit: int)
    requires n >= 1 && W > 0 && (n + 1) * W <= limit
    requires -W < c <= (n - 1) * (W - 1) && 0 <= w <= W
    ensures -limit < c < limit && -limit < c + w < limit && W < limit
  {
    assert (n - 1) * (W - 1) == n * W - n - W + 1;
    assert (n + 1) * W == n * W + W;
    assert n * W == W + (n - 1) * W;
    ProductNonNegative(n - 1, W);
  }

  /** Every number a selection computes fits as soon as one more turn than there are servers does. */
  lemma CountersFit(ss: Slots, t: nat, i: nat, limit: int)
    requires Initial(ss) && TotalWeight(ss) > 0 && i < |ss| && ss[i].Entry?
    requires (Servers(ss) + 1) * TotalWeight(ss) <= limit
    ensures -limit < Current(Run(ss, t)[i]) < limit
    ensures -limit < Current(AdvanceAll(Run(ss, t))[i]) < limit
    ensures Sum(Effectives(Run(ss, t))) == TotalWeight(ss) < limit
  {
    PrefixDeviation(ss, t, i);
    ElementAtMostSum(Present(ss), i);
    ElementAtMostSum(Weights(ss), i);
    RoomForOneTurn(Current(Run(ss, t)[i]), Weight(ss[i]), Servers(ss), TotalWeight(ss), limit);
    RunSteady(ss, t);
    SteadyStep(ss, Run(ss, t));
    assert AdvanceAll(Run(ss, t))[i] == Advance(Run(ss, t)[i]);
  }

  // ----- zero weights

  /** With all weights zero a selection changes nothing and returns the first server. */
  lemma AllZeroStep(ss: Slots)
    requires Initial(ss) && TotalWeight(ss) == 0
    ensures Next(ss) == ss
    ensures forall i :: 0 <= i < |ss| && ss[i].Entry? ==>
              (Pick(ss) == i <==> forall j :: 0 <= j < i ==> ss[j].Vacant?)
  {
    forall i | 0 <= i < |ss| ensures Weight(ss[i]) == 0 {
      ElementAtMostSum(Weights(ss), i);
      assert Weights(ss)[i] == Weight(ss[i]);
    }
    assert AdvanceAll(ss) == ss;
    assert Effectives(ss) == Weights(ss);
  }

  lemma {:induction false} AllZeroRun(ss: Slots, t: nat, i: nat)
    requires Initial(ss) && TotalWeight(ss) == 0
    ensures Run(ss, t) == ss
    ensures Picks(ss, t, i) == if Pick(ss) == i then t else 0
  {
    if t > 0 {
      var s := t - 1;
      AllZeroRun(ss, s, i);
      AllZeroStep(ss);
      assert Picks(ss, t, i) == Picks(ss, s, i) + if Pick(Run(ss, s)) == i then 1 else 0;
    }
  }

  lemma NeverPicked(ss: Slots, t: nat, i: nat)
    requires Initial(ss) && TotalWeight(ss) > 0 && i < |ss| && Weight(ss[i]) == 0
    ensures Picks(ss, t, i) == 0
  {
    RunSteady(ss, t);
    Balance(ss, t, i);
    FreeRider(Current(Run(ss, t)[i]), t, TotalWeight(ss), Picks(ss, t, i));
  }

  lemma FreeRider(c: int, t: nat, W: int, n: nat)
    requires W > 0 && c > -W && Balanced(c, t, 0, W, n)
    ensures n == 0
  {
    BalancedProducts(c, t, 0, W, n);
    if n > 0 {
      ProductNonNegative(W, n - 1);
    }
  }

  /** A zero-weight server is picked in some run exactly when all weights are zero and it comes first. */
  lemma ZeroWeightPicked(ss: Slots, i: nat)
    requires Initial(ss) && i < |ss| && ss[i].Entry? && ss[i].weight == 0
    ensures (exists t: nat :: Picks(ss, t, i) > 0) <==>
            (TotalWeight(ss) == 0 && forall j :: 0 <= j < i ==> ss[j].Vacant?)
  {
    SumAtLeast(Weights(ss), 0);
    forall t: nat ensures TotalWeight(ss) > 0 ==> Picks(ss, t, i) == 0 {
      if TotalWeight(ss) > 0 { NeverPicked(ss, t, i); }
    }
    if TotalWeight(ss) == 0 {
      AllZeroStep(ss);
      AllZeroRun(ss, 1, i);
      assert Pick(ss) == i ==> Picks(ss, 1, i) > 0;
      forall t: nat ensures Picks(ss, t, i) > 0 ==> Pick(ss) == i {
        AllZeroRun(ss, t, i);
      }
    }
  }
}
