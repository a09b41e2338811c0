/**
 * The clients an RPC client keeps, one per server key. Gets, removals and the final close run in lock
 * regions that may follow each other in any order.
 */
module ClientCache {
  import opened Words

  type Key = string

  /**
   * `entries` is the cache itself; `generated` remembers the key of every client ever made, `closed` the
   * clients on which Close was called, `broken` those whose connection is gone, and `flights` the gets
   * that have passed the shutdown check and are not over.
   */
  datatype Cache<!C(==)> = Cache(
    entries: map<Key, C>, generated: map<C, Key>, closed: set<C>, broken: set<C>, shutdown: bool, flights: set<nat>)
  {
    predicate Usable(c: C) {
      c !in closed && c !in broken
    }

    predicate IsOpen(c: C) {
      c in generated && c !in closed
    }

    function Cached(k: Key): Option<C> {
      if k in entries then Some(entries[k]) else None
    }
  }

  function Empty<C(==)>(): Cache<C> {
    Cache(map[], map[], {}, {}, false, {})
  }

  // ----- lock regions

  /** The entry of `k`, if any, is taken out and closed. */
  function Evict<C(==)>(s: Cache<C>, k: Key): Cache<C> {
    if k in s.entries then s.(entries := s.entries - {k}, closed := s.closed + {s.entries[k]}) else s
  }

  /**
   * A get under the lock: a usable entry is returned; another one is evicted, and the client that
   * connecting yields, if it does, takes its place.
   */
  function Fetch<C(==)>(s: Cache<C>, k: Key, made: Option<C>): (Cache<C>, Option<C>) {
    if k in s.entries && s.Usable(s.entries[k]) then (s, Some(s.entries[k])) else
      var t := Evict(s, k);
      match made
      case Some(c) => (t.(entries := t.entries[k := c], generated := t.generated[c := k]), Some(c))
      case None => (t, None)
  }

  /** The locked part of a removal: only the very client that is cached is evicted. */
  function Drop<C(==)>(s: Cache<C>, k: Key, c: Option<C>): Cache<C> {
    if s.Cached(k) == c then Evict(s, k) else s
  }

  function CloseOne<C(==)>(s: Cache<C>, c: C): Cache<C> {
    if c in s.generated then s.(closed := s.closed + {c}) else s
  }

  function CloseAll<C(==)>(s: Cache<C>): Cache<C> {
    s.(entries := map[], closed := s.closed + s.entries.Values, shutdown := true)
  }

  // ----- interleavings

  datatype Step<!C(==)> =
    | Begin(g: nat)
    | Get(g: nat, k: Key, made: Option<C>)
    | End(g: nat)
    | Remove(k: Key, stale: Option<C>)
    | CloseRemoved(c: C)
    | Break(c: C)
    | Shut

  /** A get starts only before the shutdown, and a client just made is a new one. */
  predicate Enabled<C(==)>(s: Cache<C>, e: Step<C>) {
    match e
    case Begin(g) => !s.shutdown
    case Get(g, k, made) => g in s.flights && (made.Some? ==> made.value !in s.generated)
    case _ => true
  }

  function Apply<C(==)>(s: Cache<C>, e: Step<C>): Cache<C> {
    match e
    case Begin(g) => s.(flights := s.flights + {g})
    case Get(g, k, made) => Fetch(s, k, made).0
    case End(g) => s.(flights := s.flights - {g})
    case Remove(k, stale) => Drop(s, k, stale)
    case CloseRemoved(c) => CloseOne(s, c)
    case Break(c) => s.(broken := s.broken + {c})
    case Shut => CloseAll(s)
  }

  predicate Legal<C(==)>(s: Cache<C>, run: seq<Step<C>>)
    decreases |run|
  {
    run == [] || (Enabled(s, run[0]) && Legal(Apply(s, run[0]), run[1..]))
  }

  function After<C(==)>(s: Cache<C>, run: seq<Step<C>>): Cache<C>
    decreases |run|
  {
    if run == [] then s else After(Apply(s, run[0]), run[1..])
  }

  // ----- no client is lost

  /** Every client made is the entry of its key, or closed. */
  ghost predicate Owned<C>(s: Cache<C>) {
    forall c :: c in s.generated && c !in s.closed ==> s.generated[c] in s.entries && s.entries[s.generated[c]] == c
  }

  ghost predicate Inv<C>(s: Cache<C>) {
    && Owned(s)
    && (forall k :: k in s.entries ==> s.entries[k] in s.generated && s.generated[s.entries[k]] == k)
    && (forall c :: c in s.closed ==> c in s.generated)
  }

  lemma EvictKeepsInv<C>(s: Cache<C>, k: Key)
    requires Inv(s)
    ensures Inv(Evict(s, k)) && k !in Evict(s, k).entries
  {
  }

  lemma FetchKeepsInv<C>(s: Cache<C>, k: Key, made: Option<C>)
    requires Inv(s) && (made.Some? ==> made.value !in s.generated)
    ensures Inv(Fetch(s, k, made).0)
  {
    EvictKeepsInv(s, k);
  }

  lemma CloseKeepsInv<C>(s: Cache<C>, c: C)
    requires Inv(s)
    ensures Inv(CloseOne(s, c))
  {
  }

  lemma StepKeepsInv<C>(s: Cache<C>, e: Step<C>)
    requires Inv(s) && Enabled(s, e)
    ensures Inv(Apply(s, e))
  {
    match e
    case Get(g, k, made) => FetchKeepsInv(s, k, made);
    case Remove(k, stale) => EvictKeepsInv(s, k);
    case _ =>
  }

  lemma {:induction false} RunKeepsInv<C>(s: Cache<C>, run: seq<Step<C>>)
    requires Inv(s) && Legal(s, run)
    ensures Inv(After(s, run))
    decreases |run|
  {
    if run != [] {
      StepKeepsInv(s, run[0]);
      RunKeepsInv(Apply(s, run[0]), run[1..]);
    }
  }

  /** No leaked connection: over any interleaving a client made is cached under its key, or has been closed. */
  lemma NoLeak<C>(run: seq<Step<C>>, c: C)
    requires Legal(Empty(), run) && c in After(Empty(), run).generated
    ensures var s := After(Empty(), run);
      c in s.closed || s.Cached(s.generated[c]) == Some(c)
  {
    RunKeepsInv(Empty(), run);
  }

  /** So one server never has two open clients. */
  lemma OneOpenClient<C>(run: seq<Step<C>>, c: C, d: C)
    requires Legal(Empty(), run) && After(Empty(), run).IsOpen(c) && After(Empty(), run).IsOpen(d)
    requires After(Empty(), run).generated[c] == After(Empty(), run).generated[d]
    ensures c == d
  {
    NoLeak(run, c);
    NoLeak(run, d);
  }

  /** A get that yields a client yields the open entry of its key. */
  lemma FetchYieldsEntry<C>(s: Cache<C>, k: Key, made: Option<C>)
    requires Inv(s) && (made.Some? ==> made.value !in s.generated)
    ensures var (t, r) := Fetch(s, k, made);
      && (r.Some? ==> t.Cached(k) == r && t.IsOpen(r.value))
      && (r.None? ==> t.Cached(k) == None)
      && forall other :: other != k ==> t.Cached(other) == s.Cached(other)
  {
    EvictKeepsInv(s, k);
  }

  /**
   * An entry neither closed nor broken is returned and nothing changes. Any other entry is closed, and what
   * is returned and cached, if anything, is the client made.
   */
  lemma FetchReuses<C>(s: Cache<C>, k: Key, made: Option<C>)
    requires Inv(s) && (made.Some? ==> made.value !in s.generated)
    ensures k in s.entries && s.entries[k] !in s.closed && s.entries[k] !in s.broken ==>
              Fetch(s, k, made) == (s, Some(s.entries[k]))
    ensures k in s.entries && (s.entries[k] in s.closed || s.entries[k] in s.broken) ==>
      var (t, r) := Fetch(s, k, made);
      && r == made && s.entries[k] in t.closed && t.closed == s.closed + {s.entries[k]}
      && t.entries == (if made.Some? then s.entries[k := made.value] else s.entries - {k})
    ensures k !in s.entries ==>
      var (t, r) := Fetch(s, k, made);
      && r == made && t.closed == s.closed
      && t.entries == (if made.Some? then s.entries[k := made.value] else s.entries)
  {
    if k in s.entries && made.Some? {
      assert (s.entries - {k})[k := made.value] == s.entries[k := made.value];
    }
  }

  /** Removing a stale client evicts nothing: the entries change only when the client is the entry, and then only at its key. */
  lemma RemovalIsExact<C>(s: Cache<C>, k: Key, c: C)
    requires Inv(s)
    ensures s.Cached(k) != Some(c) ==> Drop(s, k, Some(c)) == s
    ensures s.Cached(k) == Some(c) ==> Drop(s, k, Some(c)).Cached(k) == None
    ensures forall d :: d != c ==> (Drop(s, k, Some(c)).IsOpen(d) <==> s.IsOpen(d))
    ensures forall other :: other != k ==> Drop(s, k, Some(c)).Cached(other) == s.Cached(other)
  {
  }

  // ----- closing

  /** Nothing is cached or open, nothing is under way, and nothing can start. */
  ghost predicate Dead<C>(s: Cache<C>) {
    s.shutdown && s.flights == {} && s.entries == map[] && forall c :: c in s.generated ==> c in s.closed
  }

  lemma {:induction false} StaysDead<C>(s: Cache<C>, run: seq<Step<C>>)
    requires Dead(s) && Legal(s, run)
    ensures Dead(After(s, run)) && After(s, run).generated == s.generated
    decreases |run|
  {
    if run != [] {
      assert Dead(Apply(s, run[0]));
      StaysDead(Apply(s, run[0]), run[1..]);
    }
  }

  /** Over any run every client is closed. */
  ghost predicate AllClosedForGood<C(!new)>(s: Cache<C>) {
    forall run, c :: Legal(s, run) && c in After(s, run).generated ==> c in After(s, run).closed
  }

  /** A get that was under way when everything was closed can still make a client. */
  lemma LateGet<C>(s: Cache<C>, g: nat, k: Key, c: C)
    requires Inv(s) && g in s.flights && c !in s.generated
    ensures var run := [Get(g, k, Some(c))];
      Legal(CloseAll(s), run) && After(CloseAll(s), run).IsOpen(c) && After(CloseAll(s), run).Cached(k) == Some(c)
  {
    var run := [Get(g, k, Some(c))];
    assert run[1..] == [];
    assert After(Apply(CloseAll(s), run[0]), run[1..]) == Apply(CloseAll(s), run[0]);
  }

  /** Closing is final exactly when no get is under way; `c` stands for a client that could still be made. */
  lemma ClosingIsFinal<C(!new)>(s: Cache<C>, c: C)
    requires Inv(s) && c !in s.generated
    ensures AllClosedForGood(CloseAll(s)) <==> s.flights == {}
  {
    if s.flights == {} {
      assert Dead(CloseAll(s));
      forall run, d | Legal(CloseAll(s), run) && d in After(CloseAll(s), run).generated
        ensures d in After(CloseAll(s), run).closed
      {
        StaysDead(CloseAll(s), run);
      }
    } else {
      var g :| g in s.flights;
      LateGet(s, g, "", c);
    }
  }
}
