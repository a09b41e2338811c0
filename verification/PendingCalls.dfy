/**
 * The pending-call table of a client connection. Several threads share it under one mutex: callers
 * that register, fail to write, finish one-way sends or give up; the reader that delivers responses
 * and finally sweeps; and Close. Each lock region is one atomic step; `call.done()` after a region is
 * a step of its own, so that everything may happen in between.
 */
module PendingCalls {
  import opened Words

  /** The fields the mutex protects, and how often the connection-close plugins were notified. */
  datatype Table<C> = Table(
    nextSeq: uint64, pending: map<uint64, C>, closing: bool, shutdown: bool, pluginClosed: bool, notices: nat)

  function NewTable<C>(): Table<C> {
    Table(0, map[], false, false, false, 0)
  }

  // ----- the lock regions

  predicate Refuses<C>(t: Table<C>, codecKnown: bool) {
    t.shutdown || t.closing || !codecKnown
  }

  /** First region of `send`, when it does not refuse. */
  function Register<C>(t: Table<C>, call: C): Table<C> {
    t.(nextSeq := (t.nextSeq + 1) % TWO_64, pending := t.pending[t.nextSeq := call])
  }

  function Find<C>(t: Table<C>, s: uint64): Option<C> {
    if s in t.pending then Some(t.pending[s]) else None
  }

  /** The region of write failure, one-way completion, response and cancellation; encode failure only deletes. */
  function Remove<C>(t: Table<C>, s: uint64): Table<C> {
    t.(pending := t.pending - {s})
  }

  function Notify<C>(t: Table<C>): Table<C> {
    if t.pluginClosed then t else t.(pluginClosed := true, notices := t.notices + 1)
  }

  /** The reader's final region: it completes every entry but leaves all of them in the table. */
  function Sweep<C>(t: Table<C>): Table<C> {
    Notify(t).(shutdown := true)
  }

  /** Close: completes and deletes every entry; `closing` is set only the first time. */
  function Close<C>(t: Table<C>): Table<C> {
    var n := Notify(t).(pending := map[]);
    if t.closing || t.shutdown then n else n.(closing := true)
  }

  // ----- the whole system: the table, the threads in flight, and the books

  datatype System<C(==)> = System(
    table: Table<C>,
    issued: nat,             // registrations so far
    owner: map<C, uint64>,   // the sequence number each registered call got
    refused: set<C>,         // calls `send` turned away
    encoding: set<C>,        // registered calls whose `send` has not encoded its arguments yet
    readerDone: bool,        // the reader has left its loop and swept
    held: multiset<C>,       // calls some thread is about to complete
    completed: multiset<C>,  // `done` invocations
    removed: multiset<C>,    // entries taken out of the table
    swept: multiset<C>,      // entries present at the sweep
    orphaned: multiset<C>)   // calls completed by a failing encoder that no longer owned their entry

  datatype Step<C> =
    | Send(call: C, codecKnown: bool)
    | EncodeSucceeded(call: C)
    | EncodeFailed(call: C)
    | Take(s: uint64)        // write failure, one-way completion, response or cancellation
    | Finish(call: C)        // `done` after a region that removed or refused the call
    | FinalSweep
    | CloseClient

  function NewSystem<C>(): System<C> {
    System(NewTable(), 0, map[], {}, {}, false, multiset{}, multiset{}, multiset{}, multiset{}, multiset{})
  }

  /** Calls are new objects, a send encodes once, only a held call is finished, and one reader sweeps. */
  ghost predicate Enabled<C>(s: System<C>, step: Step<C>) {
    match step
    case Send(c, _) => c !in s.owner && c !in s.refused
    case EncodeSucceeded(c) => c in s.encoding
    case EncodeFailed(c) => c in s.encoding && c in s.owner
    case Take(_) => true
    case Finish(c) => c in s.held
    case FinalSweep => !s.readerDone
    case CloseClient => true
  }

  ghost function Entries<C>(t: Table<C>): multiset<C> {
    multiset(t.pending.Values)
  }

  ghost function Apply<C>(s: System<C>, step: Step<C>): System<C>
    requires Enabled(s, step)
  {
    match step
    case Send(c, codecKnown) =>
      if Refuses(s.table, codecKnown) then s.(refused := s.refused + {c}, held := s.held + multiset{c})
      else s.(table := Register(s.table, c), issued := s.issued + 1,
              owner := s.owner[c := s.table.nextSeq], encoding := s.encoding + {c})
    case EncodeSucceeded(c) => s.(encoding := s.encoding - {c})
    case EncodeFailed(c) =>
      var found := Find(s.table, s.owner[c]);
      s.(table := Remove(s.table, s.owner[c]), encoding := s.encoding - {c}, held := s.held + multiset{c},
         removed := if found.Some? then s.removed + multiset{found.value} else s.removed,
         orphaned := if found.Some? then s.orphaned else s.orphaned + multiset{c})
    case Take(k) =>
      var found := Find(s.table, k);
      if found.None? then s.(table := Remove(s.table, k))
      else s.(table := Remove(s.table, k), held := s.held + multiset{found.value},
              removed := s.removed + multiset{found.value})
    case Finish(c) => s.(held := s.held - multiset{c}, completed := s.completed + multiset{c})
    case FinalSweep =>
      s.(table := Sweep(s.table), readerDone := true,
         completed := s.completed + Entries(s.table), swept := s.swept + Entries(s.table))
    case CloseClient =>
      s.(table := Close(s.table),
         completed := s.completed + Entries(s.table), removed := s.removed + Entries(s.table))
  }

  /** A run is a sequence of steps, each enabled where it is taken; any interleaving is one. */
  ghost predicate Legal<C(!new)>(s: System<C>, steps: seq<Step<C>>)
    decreases |steps|
  {
    steps == [] || (Enabled(s, steps[0]) && Legal(Apply(s, steps[0]), steps[1..]))
  }

  ghost function After<C(!new)>(s: System<C>, steps: seq<Step<C>>): System<C>
    requires Legal(s, steps)
    decreases |steps|
  {
    if steps == [] then s else After(Apply(s, steps[0]), steps[1..])
  }

  /** The states of runs that start with a new client and do not wrap the 64-bit counter around. */
  ghost predicate Reachable<C(!new)>(s: System<C>) {
    s.issued <= TWO_64 && exists steps :: Legal(NewSystem<C>(), steps) && After(NewSystem<C>(), steps) == s
  }

  // ----- what every reachable state satisfies

  /** How often a call has been completed, counting the completion some thread still owes it. */
  ghost function Completions<C>(s: System<C>, c: C): nat {
    s.completed[c] + s.held[c]
  }

  /** Entries sit under the numbers their calls were given, which are all different and already issued. */
  ghost predicate Numbered<C(!new)>(s: System<C>) {
    && s.table.nextSeq == s.issued % TWO_64
    && (forall k :: k in s.table.pending ==> s.table.pending[k] in s.owner && s.owner[s.table.pending[k]] == k)
    && (forall c :: c in s.owner ==> s.owner[c] < s.issued)
    && (forall c, d :: c in s.owner && d in s.owner && s.owner[c] == s.owner[d] ==> c == d)
    && s.owner.Keys !! s.refused
    && s.encoding <= s.owner.Keys
  }

  /**
   * What may have happened to one call so far. Every completion, done or about to be, is paid for
   * by exactly one event, and no event but a failing encoder's can hit a call more than once.
   */
  ghost predicate CallHistory<C(!new)>(s: System<C>, c: C) {
    && Completions(s, c) == s.removed[c] + s.swept[c] + s.orphaned[c] + (if c in s.refused then 1 else 0)
    && if c in s.owner then
      && s.removed[c] == (if s.owner[c] in s.table.pending then 0 else 1)
      && s.swept[c] <= 1
      && (s.swept[c] == 1 ==> s.readerDone)
      && (s.readerDone ==> s.removed[c] + s.swept[c] >= 1)
      && s.orphaned[c] <= 1
      && (s.orphaned[c] == 1 ==> s.removed[c] == 1 && c !in s.encoding)
    else
      s.removed[c] == 0 && s.swept[c] == 0 && s.orphaned[c] == 0
  }

  ghost predicate Flags<C>(s: System<C>) {
    && (s.table.shutdown <==> s.readerDone)
    && s.table.notices == (if s.table.pluginClosed then 1 else 0)
    && (s.readerDone || s.table.closing <==> s.table.pluginClosed)
  }

  ghost predicate Inv<C(!new)>(s: System<C>) {
    Numbered(s) && Flags(s) && forall c :: CallHistory(s, c)
  }

  // ----- every step keeps the invariant

  lemma SendKeepsInv<C(!new)>(s: System<C>, c: C, codecKnown: bool)
    requires Inv(s) && Enabled(s, Send(c, codecKnown))
    requires Apply(s, Send(c, codecKnown)).issued <= TWO_64
    ensures Inv(Apply(s, Send(c, codecKnown)))
  {
    if Refuses(s.table, codecKnown) {
      RefusalKeepsInv(s, c, codecKnown);
    } else {
      RegistrationKeepsInv(s, c, codecKnown);
    }
  }

  lemma RefusalKeepsInv<C(!new)>(s: System<C>, c: C, codecKnown: bool)
    requires Inv(s) && Enabled(s, Send(c, codecKnown)) && Refuses(s.table, codecKnown)
    ensures Inv(Apply(s, Send(c, codecKnown)))
  {
    var r := Apply(s, Send(c, codecKnown));
    assert CallHistory(s, c);
    forall d ensures CallHistory(r, d) {
      assert CallHistory(s, d);
    }
  }

  lemma RegistrationKeepsInv<C(!new)>(s: System<C>, c: C, codecKnown: bool)
    requires Inv(s) && Enabled(s, Send(c, codecKnown)) && !Refuses(s.table, codecKnown)
    requires s.issued < TWO_64
    ensures Inv(Apply(s, Send(c, codecKnown)))
  {
    var r := Apply(s, Send(c, codecKnown));
    assert CallHistory(s, c);
    forall d ensures CallHistory(r, d) {
      assert CallHistory(s, d);
    }
  }

  lemma TakeKeepsInv<C(!new)>(s: System<C>, k: uint64)
    requires Inv(s)
    ensures Inv(Apply(s, Take(k)))
  {
    var r := Apply(s, Take(k));
    if k in s.table.pending {
      forall d ensures CallHistory(r, d) {
        assert CallHistory(s, d);
      }
    } else {
      assert r == s by { assert Remove(s.table, k).pending == s.table.pending; }
    }
  }

  lemma EncodeFailedKeepsInv<C(!new)>(s: System<C>, c: C)
    requires Inv(s) && Enabled(s, EncodeFailed(c))
    ensures Inv(Apply(s, EncodeFailed(c)))
  {
    var r := Apply(s, EncodeFailed(c));
    forall d ensures CallHistory(r, d) {
      assert CallHistory(s, d);
    }
  }

  lemma FinishKeepsInv<C(!new)>(s: System<C>, c: C)
    requires Inv(s) && Enabled(s, Finish(c))
    ensures Inv(Apply(s, Finish(c)))
  {
    var r := Apply(s, Finish(c));
    forall d ensures CallHistory(r, d) {
      assert CallHistory(s, d);
    }
  }

  /** In a numbered table every entry occurs once. */
  lemma EntriesOnce<C(!new)>(s: System<C>, c: C)
    requires Numbered(s)
    ensures Entries(s.table)[c] == if c in s.owner && s.owner[c] in s.table.pending then 1 else 0
  {
    if c in s.table.pending.Values {
      var k :| k in s.table.pending && s.table.pending[k] == c;
    }
    if c in s.owner && s.owner[c] in s.table.pending {
      assert s.table.pending[s.owner[c]] == c;
    }
  }

  lemma SweepKeepsInv<C(!new)>(s: System<C>)
    requires Inv(s) && Enabled(s, FinalSweep)
    ensures Inv(Apply(s, FinalSweep))
  {
    var r := Apply(s, FinalSweep);
    forall d ensures CallHistory(r, d) {
      assert CallHistory(s, d);
      EntriesOnce(s, d);
    }
  }

  lemma CloseKeepsInv<C(!new)>(s: System<C>)
    requires Inv(s)
    ensures Inv(Apply(s, CloseClient))
  {
    var r := Apply(s, CloseClient);
    forall d ensures CallHistory(r, d) {
      assert CallHistory(s, d);
      EntriesOnce(s, d);
    }
  }

  lemma StepKeepsInv<C(!new)>(s: System<C>, step: Step<C>)
    requires Inv(s) && Enabled(s, step) && Apply(s, step).issued <= TWO_64
    ensures Inv(Apply(s, step))
  {
    match step
    case Send(c, codecKnown) => SendKeepsInv(s, c, codecKnown);
    case EncodeSucceeded(c) =>
      forall d ensures CallHistory(Apply(s, step), d) { assert CallHistory(s, d); }
    case EncodeFailed(c) => EncodeFailedKeepsInv(s, c);
    case Take(k) => TakeKeepsInv(s, k);
    case Finish(c) => FinishKeepsInv(s, c);
    case FinalSweep => SweepKeepsInv(s);
    case CloseClient => CloseKeepsInv(s);
  }

  // ----- whole runs

  lemma {:induction false} IssuedGrows<C(!new)>(s: System<C>, steps: seq<Step<C>>)
    requires Legal(s, steps)
    ensures s.issued <= After(s, steps).issued
    decreases |steps|
  {
    if steps != [] {
      IssuedGrows(Apply(s, steps[0]), steps[1..]);
    }
  }

  lemma {:induction false} RunKeepsInv<C(!new)>(s: System<C>, steps: seq<Step<C>>)
    requires Inv(s) && Legal(s, steps) && After(s, steps).issued <= TWO_64
    ensures Inv(After(s, steps))
    decreases |steps|
  {
    if steps != [] {
      var next, rest := Apply(s, steps[0]), steps[1..];
      IssuedGrows(next, rest);
      StepKeepsInv(s, steps[0]);
      RunKeepsInv(next, rest);
    }
  }

  lemma {:induction false} LegalSnoc<C(!new)>(s: System<C>, steps: seq<Step<C>>, last: Step<C>)
    requires Legal(s, steps) && Enabled(After(s, steps), last)
    ensures Legal(s, steps + [last]) && After(s, steps + [last]) == Apply(After(s, steps), last)
    decreases |steps|
  {
    var all := steps + [last];
    if steps == [] {
      assert Legal(Apply(s, last), all[1..]);
    } else {
      LegalSnoc(Apply(s, steps[0]), steps[1..], last);
      assert all[1..] == steps[1..] + [last];
    }
  }

  /** Reachable states are closed under enabled steps. */
  lemma ReachableStep<C(!new)>(s: System<C>, step: Step<C>)
    requires Reachable(s) && Enabled(s, step) && Apply(s, step).issued <= TWO_64
    ensures Reachable(Apply(s, step))
  {
    var steps :| Legal(NewSystem<C>(), steps) && After(NewSystem<C>(), steps) == s;
    LegalSnoc(NewSystem<C>(), steps, step);
  }

  lemma ReachableInv<C(!new)>(s: System<C>)
    requires Reachable(s)
    ensures Inv(s)
  {
    var steps :| Legal(NewSystem<C>(), steps) && After(NewSystem<C>(), steps) == s;
    assert forall c :: CallHistory(NewSystem<C>(), c);
    RunKeepsInv(NewSystem<C>(), steps);
  }

  /**
   * Exact completion accounting. Whatever the interleaving, a registered call is completed once for
   * the removal of its entry, once more if the sweep found the entry, and once more if its encoder
   * failed after the entry was gone; a refused call is completed once; nobody else ever is.
   */
  lemma CompletionAccounting<C(!new)>(s: System<C>, c: C)
    requires Reachable(s)
    ensures
      if c in s.owner then
        && Completions(s, c) == s.removed[c] + s.swept[c] + s.orphaned[c]
        && s.removed[c] == (if s.owner[c] in s.table.pending then 0 else 1)
        && s.swept[c] <= (if s.readerDone then 1 else 0)
        && s.orphaned[c] <= s.removed[c]
        && Completions(s, c) <= 3
        && (s.orphaned[c] == 0 ==> Completions(s, c) <= 2)
        && (s.orphaned[c] == 0 && !s.readerDone ==> Completions(s, c) == s.removed[c] <= 1)
      else Completions(s, c) == if c in s.refused then 1 else 0
  {
    ReachableInv(s);
    assert CallHistory(s, c);
  }

  /** No caller hangs: at every moment a call is waiting in a live table, about to be completed, or completed. */
  lemma NobodyHangs<C(!new)>(s: System<C>, c: C)
    requires Reachable(s)
    requires c in s.owner || c in s.refused
    ensures || (c in s.owner && s.owner[c] in s.table.pending && s.table.pending[s.owner[c]] == c && !s.readerDone)
            || s.held[c] > 0
            || s.completed[c] > 0
    ensures s.readerDone && s.held == multiset{} ==> s.completed[c] > 0
  {
    ReachableInv(s);
    assert CallHistory(s, c);
    EntriesOnce(s, c);
  }

  /** Once a client is closing or shut down it stays so, and no later send is ever registered. */
  lemma {:induction false} ClosedForGood<C(!new)>(s: System<C>, steps: seq<Step<C>>)
    requires Legal(s, steps)
    ensures s.table.shutdown ==> After(s, steps).table.shutdown
    ensures s.table.closing ==> After(s, steps).table.closing
    ensures s.table.shutdown || s.table.closing ==> After(s, steps).owner == s.owner
    decreases |steps|
  {
    if steps != [] {
      ClosedForGood(Apply(s, steps[0]), steps[1..]);
    }
  }

  /**
   * Responses are routed by number: the call a number takes out is the one registered under it,
   * and a number whose call is gone completes nobody.
   */
  lemma Routing<C(!new)>(s: System<C>, k: uint64)
    requires Reachable(s)
    ensures match Find(s.table, k)
      case Some(c) =>
        && c in s.owner && s.owner[c] == k && s.removed[c] == 0
        && (forall d :: d in s.owner && s.owner[d] == k ==> d == c)
        && Apply(s, Take(k)).held == s.held + multiset{c}
      case None => Apply(s, Take(k)) == s
  {
    ReachableInv(s);
    match Find(s.table, k)
    case Some(c) => assert CallHistory(s, c);
    case None => assert Remove(s.table, k).pending == s.table.pending;
  }

  /** A late reply: the number of a call that was already taken out finds nobody. */
  lemma LateReply<C(!new)>(s: System<C>, c: C)
    requires Reachable(s) && c in s.owner && s.removed[c] > 0
    ensures Find(s.table, s.owner[c]) == None
    ensures Apply(s, Take(s.owner[c])) == s
  {
    ReachableInv(s);
    assert CallHistory(s, c);
    assert Remove(s.table, s.owner[c]).pending == s.table.pending;
  }

  /** The plugins hear about the closing connection once, when the first of Close and the sweep runs. */
  lemma NoticedOnce<C(!new)>(s: System<C>)
    requires Reachable(s)
    ensures s.table.notices == if s.table.shutdown || s.table.closing then 1 else 0
  {
    ReachableInv(s);
  }

  /** Registering overwrites nobody exactly when the next number is free. */
  lemma RegistrationOverwrites<C(!new)>(t: Table<C>, c: C)
    requires c !in t.pending.Values
    ensures (forall k :: k in t.pending ==> Register(t, c).pending[k] == t.pending[k])
       <==> t.nextSeq !in t.pending
  {
    if t.nextSeq in t.pending {
      assert Register(t, c).pending[t.nextSeq] == c && t.pending[t.nextSeq] in t.pending.Values;
    }
  }

  /** The next number is free in every run that has not used up the counter. */
  lemma NextNumberFree<C(!new)>(s: System<C>)
    requires Reachable(s) && s.issued < TWO_64
    ensures s.table.nextSeq !in s.table.pending
  {
    ReachableInv(s);
  }

  /** One call sent, swept, and completed again by Close. */
  lemma SweptAndClosed<C(!new)>(c: C) returns (s: System<C>)
    ensures Reachable(s) && s.orphaned[c] == 0 && Completions(s, c) == 2
    ensures c in s.encoding && c in s.owner && Find(s.table, s.owner[c]) == None
  {
    var s0 := NewSystem<C>();
    var s1 := Apply(s0, Send(c, true));
    var s2 := Apply(s1, FinalSweep);
    s := Apply(s2, CloseClient);
    assert Legal(s0, []) && After(s0, []) == s0;
    ReachableStep(s0, Send(c, true));
    ReachableStep(s1, FinalSweep);
    ReachableStep(s2, CloseClient);
    assert s1.table.pending[0] == c;
    assert Entries(s1.table)[c] == 1 && Entries(s2.table)[c] == 1;
  }

  /**
   * The bounds of the accounting are reached: a sweep leaves its entries in the table, so Close
   * completes them again, and an encoder that fails last completes without owning the entry.
   */
  lemma ThreeCompletions<C(!new)>(c: C)
    ensures exists s: System<C> :: Reachable(s) && s.orphaned[c] == 0 && Completions(s, c) == 2
    ensures exists s: System<C> :: Reachable(s) && Completions(s, c) == 3
  {
    var s := SweptAndClosed(c);
    ReachableStep(s, EncodeFailed(c));
    assert Completions(Apply(s, EncodeFailed(c)), c) == 3;
  }
}
