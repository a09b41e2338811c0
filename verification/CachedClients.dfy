/** The cache as the RPC client keeps it: one method per lock region, and the operations made of them. */
module CachedClients {
  import opened Words
  import opened ClientCache

  /**
   * A connection to a server, with the two flags a cached client is judged by. Close sets its flag only
   * while the connection is up, so the calls of Close are remembered apart from it.
   */
  class Conn {
    var closing: bool
    var shutdown: bool
    ghost var closeCalled: bool

    ghost predicate Valid()
      reads this
    {
      (closing ==> closeCalled) && (closeCalled ==> closing || shutdown)
    }

    constructor ()
      ensures Valid() && !closing && !shutdown && !closeCalled
    {
      closing, shutdown, closeCalled := false, false, false;
    }

    method Close()
      requires Valid()
      modifies this
      ensures Valid() && closeCalled && shutdown == old(shutdown)
      ensures closing == (old(closing) || !shutdown)
    {
      closeCalled := true;
      if closing || shutdown {
        return;
      }
      closing := true;
    }
  }

  class ClientMap {
    var cachedClient: map<Key, Conn>
    var isShutdown: bool
    ghost var generated: map<Conn, Key>
    ghost var flights: set<nat>

    ghost function State(): Cache<Conn>
      reads this, generated.Keys
    {
      var closed := set c | c in generated.Keys && c.closeCalled;
      var broken := set c | c in generated.Keys && c.shutdown;
      Cache(cachedClient, generated, closed, broken, isShutdown, flights)
    }

    ghost predicate Valid()
      reads this, generated.Keys
    {
      Inv(State()) && Conns()
    }

    ghost predicate Conns()
      reads this, generated.Keys
    {
      forall c :: c in generated ==> c.Valid()
    }

    constructor ()
      ensures Valid() && State() == Empty()
    {
      cachedClient, isShutdown, generated, flights := map[], false, map[], {};
    }

    method Find(k: Key) returns (c: Option<Conn>)
      ensures c == State().Cached(k)
    {
      c := if k in cachedClient then Some(cachedClient[k]) else None;
    }

    method DeleteCachedClient(k: Key)
      requires Valid()
      modifies this`cachedClient, generated.Keys
      ensures State() == Evict(old(State()), k) && Conns()
    {
      if k in cachedClient {
        var c := cachedClient[k];
        cachedClient := cachedClient - {k};
        c.Close();
      }
    }

    /** A get under the lock; `connects` says whether a new connection would be made. */
    method GetCachedClientWithoutLock(k: Key, connects: bool) returns (r: Option<Conn>, ghost made: Option<Conn>)
      requires Valid()
      modifies this`cachedClient, this`generated, generated.Keys
      ensures Valid() && (made.Some? ==> fresh(made.value)) && (r.Some? && r != made ==> r == old(State()).Cached(k))
      ensures (State(), r) == Fetch(old(State()), k, made)
    {
      var c := Find(k);
      made := None;
      if c.Some? && !c.value.closing && !c.value.shutdown {
        return c, made;
      }
      EvictKeepsInv(State(), k);
      DeleteCachedClient(k);
      if !connects {
        return None, made;
      }
      r := MakeClient(k);
      made := r;
      FetchKeepsInv(old(State()), k, made);
    }

    /** A new client takes the place of its key. */
    method MakeClient(k: Key) returns (r: Option<Conn>)
      requires Conns()
      modifies this`cachedClient, this`generated
      ensures r.Some? && fresh(r.value) && Conns()
      ensures State() == old(State()).(entries := old(cachedClient)[k := r.value], generated := old(generated)[r.value := k])
    {
      var n := new Conn();
      Remember(k, n);
      cachedClient := cachedClient[k := n];
      r := Some(n);
    }

    ghost method Remember(k: Key, n: Conn)
      requires n !in generated && n.Valid() && !n.closeCalled && !n.shutdown && Conns()
      modifies this`generated
      ensures generated == old(generated)[n := k] && Conns()
      ensures State() == old(State()).(generated := generated)
    {
      generated := generated[n := k];
      assert State().closed == old(State()).closed && State().broken == old(State()).broken;
    }

    /**
     * The unlocked shutdown check, the breaker of the key, a look, and the get under the lock; `ready` is
     * what the breaker says, true without one.
     */
    method GetCachedClient(k: Key, ready: bool, connects: bool) returns (r: Option<Conn>, ghost made: Option<Conn>)
      requires Valid()
      modifies this`cachedClient, this`generated, generated.Keys
      ensures Valid() && (made.Some? ==> fresh(made.value))
      ensures if old(isShutdown) || !ready then r == None && State() == old(State())
              else (State(), r) == Fetch(old(State()), k, made)
    {
      made := None;
      if isShutdown || !ready {
        return None, made;
      }
      var c := Find(k);
      if c.Some? && !c.value.closing && !c.value.shutdown {
        return c, made;
      }
      r, made := GetCachedClientWithoutLock(k, connects);
    }

    /** Takes a client out of the cache if it is the cached one, and closes it either way. */
    method RemoveClient(k: Key, client: Option<Conn>)
      requires Valid() && (client.Some? ==> client.value in generated)
      modifies this`cachedClient, generated.Keys
      ensures Valid()
      ensures client.Some? ==> client.value.closeCalled
      ensures cachedClient == if old(State()).Cached(k) == client then old(cachedClient) - {k} else old(cachedClient)
      ensures State() == if client.Some? then CloseOne(Drop(old(State()), k, client), client.value)
                         else Drop(old(State()), k, client)
    {
      EvictKeepsInv(State(), k);
      var cl := Find(k);
      if cl == client {
        DeleteCachedClient(k);
      }
      ghost var dropped := State();
      assert dropped == Drop(old(State()), k, client);
      if client.Some? {
        CloseConn(client.value);
        CloseKeepsInv(dropped, client.value);
      }
    }

    method CloseConn(c: Conn)
      requires c in generated && Conns()
      modifies c
      ensures State() == CloseOne(old(State()), c) && Conns()
    {
      c.Close();
    }

    /** Closes everything cached, in whatever order the map is walked. */
    method Close()
      requires Valid()
      modifies this`cachedClient, this`isShutdown, generated.Keys
      ensures Valid() && State() == CloseAll(old(State())) && isShutdown && cachedClient == map[]
      ensures forall c :: c in old(cachedClient).Values ==> c.closeCalled
    {
      isShutdown := true;
      CloseEntries();
    }

    method CloseEntries()
      requires Valid()
      modifies this`cachedClient, generated.Keys
      ensures Valid() && cachedClient == map[] && CloseAll(State()) == CloseAll(old(State()))
    {
      ghost var goal := CloseAll(State());
      while cachedClient != map[]
        invariant Valid() && CloseAll(State()) == goal
        decreases |cachedClient|
      {
        CloseAny();
      }
    }

    /** One step of closing everything. */
    method CloseAny()
      requires Valid() && cachedClient != map[]
      modifies this`cachedClient, generated.Keys
      ensures Valid() && |cachedClient| < |old(cachedClient)|
      ensures CloseAll(State()) == CloseAll(old(State()))
    {
      var k :| k in cachedClient;
      EvictKeepsInv(State(), k);
      EvictThenCloseAll(State(), k);
      DeleteCachedClient(k);
    }
  }

  lemma EvictThenCloseAll<C>(s: Cache<C>, k: Key)
    requires k in s.entries
    ensures CloseAll(Evict(s, k)) == CloseAll(s) && |Evict(s, k).entries| < |s.entries|
  {
    var rest := s.entries - {k};
    assert s.entries == rest[k := s.entries[k]];
    assert s.entries.Values == rest.Values + {s.entries[k]};
    assert s.entries.Keys == rest.Keys + {k};
    assert |s.entries| == |s.entries.Keys| && |rest| == |rest.Keys|;
  }
}
