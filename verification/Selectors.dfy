/** The selectors that feed the smooth weighted round robin: configured weights and ping weights. */
module Selectors {
  import opened Sums
  import opened WeightedRoundRobin

  /** A server in the order the map iteration yields it, with the weight its metadata parsed to, if any. */
  datatype Candidate = Configured(server: string, parsed: ParsedWeight) | Pinged(server: string, rtt: int)
  datatype ParsedWeight = Missing | Parsed(weight: int)

  /** Round-trip time in milliseconds to weight; anything from a second on, or negative, weighs nothing. */
  function CalculateWeight(rtt: int): (w: int)
    ensures 0 <= w <= 191
    ensures w == 0 <==> rtt < 0 || rtt >= 1000
    ensures w == 1 <==> 200 <= rtt < 1000
    ensures 0 <= rtt <= 200 ==> w == 201 - (if rtt <= 10 then 10 else rtt)
  {
    if 0 <= rtt <= 10 then 191
    else if 10 < rtt <= 200 then 201 - rtt
    else if 100 < rtt < 1000 then 1
    else 0
  }

  /** Closer servers never weigh less. */
  lemma CalculateWeightAntitone(r: int, s: int)
    requires 0 <= r <= s
    ensures CalculateWeight(r) >= CalculateWeight(s)
  {
  }

  function InitialWeight(c: Candidate): int {
    match c
    case Configured(_, Missing) => 1
    case Configured(_, Parsed(w)) => w
    case Pinged(_, rtt) => CalculateWeight(rtt)
  }

  function InitialSlot(c: Candidate): Slot {
    Entry(c.server, InitialWeight(c), 0, InitialWeight(c))
  }

  function InitialSlots(cs: seq<Candidate>): (ss: Slots)
    ensures |ss| == |cs|
  {
    seq(|cs|, i requires 0 <= i < |cs| => InitialSlot(cs[i]))
  }

  /** Builds the list of a selector: new, distinct servers with zero counters. */
  method CreateWeighted(cs: seq<Candidate>) returns (servers: seq<Weighted?>)
    ensures Snapshot(servers) == InitialSlots(cs)
    ensures Distinct(servers) && forall w :: w in servers ==> w != null && fresh(w)
    ensures |servers| == |cs| && forall i :: 0 <= i < |cs| ==>
      && servers[i] != null && servers[i].server == cs[i].server
      && servers[i].currentWeight == 0 && servers[i].effectiveWeight == servers[i].weight
      && servers[i].weight == match cs[i]
                              case Configured(_, Parsed(w)) => w
                              case Configured(_, Missing) => 1
                              case Pinged(_, rtt) => CalculateWeight(rtt)
  {
    servers := [];
    for i := 0 to |cs|
      invariant |servers| == i
      invariant forall k :: 0 <= k < i ==> View(servers[k]) == InitialSlot(cs[k])
      invariant forall k :: 0 <= k < i ==> servers[k] != null
      invariant Distinct(servers) && forall w :: w in servers ==> w != null && fresh(w)
    {
      var w := new Weighted(cs[i].server, InitialWeight(cs[i]));
      servers := servers + [w];
    }
  }

  class WeightedSelector {
    var servers: seq<Weighted?>

    ghost predicate Valid()
      reads this
    {
      Distinct(servers)
    }

    constructor (cs: seq<Candidate>)
      ensures Valid() && Snapshot(servers) == InitialSlots(cs)
      ensures forall w :: w in servers ==> w != null && fresh(w)
    {
      var ws := CreateWeighted(cs);
      servers := ws;
    }

    /** Returns the picked server's name, or the empty string when there is no server to pick. */
    method Select() returns (server: string)
      requires Valid()
      modifies servers
      ensures Valid() && servers == old(servers)
      ensures Snapshot(servers) == Next(old(Snapshot(servers)))
      ensures server == (var b := Pick(old(Snapshot(servers)));
                         if b == -1 then "" else old(Snapshot(servers))[b].server)
    {
      if |servers| == 0 {
        return "";
      }
      ghost var before := Snapshot(servers);
      var w := NextWeighted(servers);
      if w == null {
        return "";
      }
      assert View(w) == Snapshot(servers)[Pick(before)];
      return w.server;
    }

    /** Replaces the list; all counters start again from zero. */
    method UpdateServer(cs: seq<Candidate>)
      modifies this
      ensures Valid() && Snapshot(servers) == InitialSlots(cs)
    {
      servers := CreateWeighted(cs);
    }
  }

  /**
   * Exclusion by ping: a server whose round trip takes a second or more is selected in some run
   * exactly when every server weighs nothing and it happens to be first in the list.
   */
  lemma SlowServerSelected(cs: seq<Candidate>, i: nat)
    requires i < |cs| && forall k :: 0 <= k < |cs| ==> cs[k].Pinged?
    requires cs[i].rtt >= 1000
    ensures (exists t: nat :: Picks(InitialSlots(cs), t, i) > 0) <==>
            (i == 0 && forall k :: 0 <= k < |cs| ==> cs[k].rtt < 0 || cs[k].rtt >= 1000)
  {
    var ss := InitialSlots(cs);
    ZeroWeightPicked(ss, i);
    assert i > 0 ==> ss[0].Entry?;
    if TotalWeight(ss) == 0 {
      forall k | 0 <= k < |cs| ensures CalculateWeight(cs[k].rtt) == 0 {
        ElementAtMostSum(Weights(ss), k);
        assert Weights(ss)[k] == CalculateWeight(cs[k].rtt);
      }
    } else if forall k :: 0 <= k < |cs| ==> cs[k].rtt < 0 || cs[k].rtt >= 1000 {
      SumOfZeros(Weights(ss));
    }
  }

  /** What each candidate starts as: the parsed weight, 1 when none was parsed, or what its ping weighs. */
  lemma StartingSlot(cs: seq<Candidate>, i: nat)
    requires i < |cs|
    ensures InitialSlots(cs)[i] == match cs[i]
                                   case Configured(s, Parsed(w)) => Entry(s, w, 0, w)
                                   case Configured(s, Missing) => Entry(s, 1, 0, 1)
                                   case Pinged(s, rtt) => Entry(s, CalculateWeight(rtt), 0, CalculateWeight(rtt))
  {
  }

  /**
   * Configured weights are served exactly, in every window of as many selections as they add up to, if and
   * only if none is negative; the metadata may say anything. Candidate `i` is then picked as often as its
   * metadata say, once when they say nothing. Weights that add up to less than nothing have no window.
   */
  lemma ConfiguredFairness(cs: seq<Candidate>, ss: Slots, W: nat)
    requires |ss| == |cs| && W == TotalWeight(ss)
    requires forall i :: 0 <= i < |cs| ==>
      ss[i] == match cs[i]
               case Configured(s, Parsed(w)) => Entry(s, w, 0, w)
               case Configured(s, Missing) => Entry(s, 1, 0, 1)
               case Pinged(s, rtt) => Entry(s, CalculateWeight(rtt), 0, CalculateWeight(rtt))
    ensures (forall t: nat, i: nat :: i < |cs| ==>
               Picks(ss, W + t, i) - Picks(ss, t, i) == match cs[i]
                                                        case Configured(_, Parsed(w)) => w
                                                        case Configured(_, Missing) => 1
                                                        case Pinged(_, rtt) => CalculateWeight(rtt))
       <==> (forall i :: 0 <= i < |cs| && cs[i].Configured? && cs[i].parsed.Parsed? ==> cs[i].parsed.weight >= 0)
  {
    if forall i :: 0 <= i < |cs| && cs[i].Configured? && cs[i].parsed.Parsed? ==> cs[i].parsed.weight >= 0 {
      forall t: nat, i: nat | i < |cs| ensures Picks(ss, W + t, i) - Picks(ss, t, i) == Weight(ss[i]) {
        ServedByWeight(ss, W, t, i);
      }
    } else {
      var i :| 0 <= i < |cs| && cs[i].Configured? && cs[i].parsed.Parsed? && cs[i].parsed.weight < 0;
      var t := 0;
      assert Picks(ss, W + t, i) - Picks(ss, t, i) >= 0;
    }
  }

  lemma ServedByWeight(ss: Slots, W: nat, t: nat, i: nat)
    requires Initial(ss) && W == TotalWeight(ss) && i < |ss|
    ensures Picks(ss, W + t, i) - Picks(ss, t, i) == Weight(ss[i])
  {
    if W > 0 {
      ExactFairness(ss, W, t, i);
    } else {
      NothingToServe(ss, i);
      assert W + t == t;
    }
  }

  lemma NothingToServe(ss: Slots, i: nat)
    requires Initial(ss) && TotalWeight(ss) == 0 && i < |ss|
    ensures Weight(ss[i]) == 0
  {
    var ws := Weights(ss);
    assert forall j :: 0 <= j < |ss| ==> ws[j] == Weight(ss[j]) >= 0;
    ElementAtMostSum(ws, i);
  }
}
