/** One call under a failure policy: selecting a client, attempting, and trying again while it is worth it. */
module RetryLoop {
  import opened Words

  datatype Error = ServiceError | DeadlineExceeded | Canceled | Other(code: int)

  predicate ContextCanceled(err: Option<Error>) {
    err == Some(DeadlineExceeded) || err == Some(Canceled)
  }

  /** Errors that speak against the connection; no error counts among them. */
  predicate UncoverError(err: Option<Error>) {
    err != Some(ServiceError) && err != Some(DeadlineExceeded) && err != Some(Canceled)
  }

  datatype FailMode = Failover | Failfast | Failtry

  /** What selecting yields: the key of a server, and an error when there is no client for it. */
  datatype Pick = Pick(key: string, err: Option<Error>)

  datatype Outcome = NotCalled | Succeeded | Failed(error: Error)

  /** After this outcome the call is over. */
  predicate Conclusive(o: Outcome) {
    o == Succeeded || (o.Failed? && (o.error == ServiceError || ContextCanceled(Some(o.error))))
  }

  /** One turn of the loop: the server, what came of it, and whether its client was removed. */
  datatype Round = Round(key: string, outcome: Outcome, removed: bool)

  /** The world a call meets: what the i-th selection yields and how the n-th attempt ends. */
  datatype World = World(mode: FailMode, pick: nat -> Pick, answer: nat -> Option<Error>) {
    /** Failtry asks again for the client of the first server. */
    function KeyAt(i: nat): string {
      if mode == Failtry then pick(0).key else pick(i).key
    }

    function OutcomeAt(i: nat, n: nat): Outcome {
      if pick(i).err.Some? then NotCalled else match answer(n) case None => Succeeded case Some(e) => Failed(e)
    }
  }

  function Known(o: Outcome, before: Option<Error>): Option<Error> {
    match o
    case NotCalled => before
    case Succeeded => None
    case Failed(e) => Some(e)
  }

  /** Where the loop stands: the selection and the attempt due next, and the last error heard. */
  datatype Cursor = Cursor(i: nat, n: nat, err: Option<Error>)

  function Coming(w: World, c: Cursor): Outcome {
    w.OutcomeAt(c.i, c.n)
  }

  function TurnAt(w: World, c: Cursor): Round {
    var o := Coming(w, c);
    Round(w.KeyAt(c.i), o, !Conclusive(o) && UncoverError(Known(o, c.err)))
  }

  function Advance(w: World, c: Cursor): Cursor {
    var o := Coming(w, c);
    Cursor(c.i + 1, if o.NotCalled? then c.n else c.n + 1, Known(o, c.err))
  }

  /** The turns from a point on, with at most `left` of them to go. */
  function Rounds(w: World, left: int, c: Cursor): seq<Round>
    decreases left
  {
    if left <= 0 then []
    else if Conclusive(Coming(w, c)) then [TurnAt(w, c)]
    else [TurnAt(w, c)] + Rounds(w, left - 1, Advance(w, c))
  }

  /** All turns of a call; a first selection the context cut short ends it, and Failfast allows one turn or none. */
  function CallRounds(w: World, retries: int): seq<Round> {
    var first := w.pick(0).err;
    if ContextCanceled(first) then []
    else if w.mode == Failfast then (if first.Some? then [] else [FastRound(w)])
    else Rounds(w, retries + 1, Cursor(0, 0, first))
  }

  function FastRound(w: World): Round {
    var o := w.OutcomeAt(0, 0);
    Round(w.pick(0).key, o, o.Failed? && UncoverError(Some(o.error)))
  }

  /** The last thing heard: of the attempts, or else of the first selection. */
  function LastHeard(rs: seq<Round>, first: Option<Error>): Option<Error> {
    if rs == [] then first else LastHeard(rs[1..], Known(rs[0].outcome, first))
  }

  // ----- the loop

  method Call(w: World, retries: int) returns (err: Option<Error>, log: seq<Round>)
    ensures log == CallRounds(w, retries)
    ensures err == LastHeard(log, w.pick(0).err)
    ensures (forall j :: 0 <= j < |log| ==> log[j].outcome == NotCalled) ==> err == w.pick(0).err
    ensures forall j :: LastAttempt(log, j) ==>
              err == if log[j].outcome.Failed? then Some(log[j].outcome.error) else None
  {
    LastMade(CallRounds(w, retries), w.pick(0).err);
    var p := w.pick(0);
    err, log := p.err, [];
    if err.Some? && (w.mode == Failfast || ContextCanceled(err)) {
      return;
    }
    if w.mode == Failfast {
      var o := Attempt(w, 0);
      err := Known(o, None);
      log := [Round(p.key, o, o.Failed? && UncoverError(err))];
      return;
    }
    err, log := Repeat(w, retries, p);
  }

  /** The loop of Failtry and Failover, which differ in where the next client comes from. */
  method Repeat(w: World, retries: int, p: Pick) returns (err: Option<Error>, log: seq<Round>)
    requires p == w.pick(0) && w.mode != Failfast
    ensures log == Rounds(w, retries + 1, Cursor(0, 0, p.err))
    ensures err == LastHeard(log, p.err)
  {
    var k, client := p.key, p.err.None?;
    var left, i: nat, n: nat := retries, 0, 0;
    err, log := p.err, [];
    while left >= 0
      invariant k == w.KeyAt(i) && client == w.pick(i).err.None?
      invariant log + Rounds(w, left + 1, Cursor(i, n, err)) == Rounds(w, retries + 1, Cursor(0, 0, p.err))
      invariant err == LastHeard(log, p.err)
      decreases left
    {
      ghost var c := Cursor(i, n, err);
      var r;
      r, n, err := TakeTurn(w, i, n, k, client, err);
      Heard(log, r, p.err);
      NextTurn(w, left, c, log, r);
      log := log + [r];
      if Conclusive(r.outcome) {
        return;
      }
      left, i := left - 1, i + 1;
      k, client := if w.mode == Failtry then k else w.pick(i).key, w.pick(i).err.None?;
    }
    assert log + [] == log;
  }

  /** One turn of the loop: an attempt if there is a client, which is removed unless the turn is conclusive. */
  method TakeTurn(w: World, ghost i: nat, n: nat, k: string, client: bool, err: Option<Error>)
    returns (r: Round, n': nat, err': Option<Error>)
    requires k == w.KeyAt(i) && client == w.pick(i).err.None?
    ensures r == TurnAt(w, Cursor(i, n, err)) && Advance(w, Cursor(i, n, err)) == Cursor(i + 1, n', err')
    ensures err' == Known(r.outcome, err)
  {
    var o := NotCalled;
    n', err' := n, err;
    if client {
      o := Attempt(w, n);
      n', err' := n + 1, Known(o, err);
    }
    r := Round(k, o, !Conclusive(o) && UncoverError(err'));
  }

  /** The turns taken so far and those to come, after one more. */
  lemma NextTurn(w: World, left: nat, c: Cursor, log: seq<Round>, r: Round)
    requires r == TurnAt(w, c)
    ensures log + Rounds(w, left + 1, c) ==
            if Conclusive(r.outcome) then log + [r] else log + [r] + Rounds(w, left, Advance(w, c))
  {
    var rest := Rounds(w, left, Advance(w, c));
    assert log + ([r] + rest) == log + [r] + rest;
  }

  method Attempt(w: World, n: nat) returns (o: Outcome)
    ensures o == match w.answer(n) case None => Succeeded case Some(e) => Failed(e)
  {
    var e := w.answer(n);
    o := if e == None then Succeeded else Failed(e.value);
  }

  /** Turn `j` is the last one in which a client was called. */
  predicate LastAttempt(rs: seq<Round>, j: int) {
    0 <= j < |rs| && rs[j].outcome != NotCalled && forall i :: j < i < |rs| ==> rs[i].outcome == NotCalled
  }

  /** The last thing heard is the outcome of the last attempt made, or the first selection's when none was. */
  lemma LastMade(rs: seq<Round>, first: Option<Error>)
    ensures (forall j :: 0 <= j < |rs| ==> rs[j].outcome == NotCalled) ==> LastHeard(rs, first) == first
    ensures forall j :: LastAttempt(rs, j) ==>
              LastHeard(rs, first) == if rs[j].outcome.Failed? then Some(rs[j].outcome.error) else None
  {
    if forall j :: 0 <= j < |rs| ==> rs[j].outcome == NotCalled {
      NothingSaid(rs, first);
    }
    forall j | LastAttempt(rs, j)
      ensures LastHeard(rs, first) == if rs[j].outcome.Failed? then Some(rs[j].outcome.error) else None
    {
      SaidLast(rs, first, j);
    }
  }

  lemma {:induction false} NothingSaid(rs: seq<Round>, first: Option<Error>)
    requires forall j :: 0 <= j < |rs| ==> rs[j].outcome == NotCalled
    ensures LastHeard(rs, first) == first
  {
    if rs != [] {
      NothingSaid(rs[1..], first);
    }
  }

  lemma {:induction false} SaidLast(rs: seq<Round>, first: Option<Error>, j: nat)
    requires LastAttempt(rs, j)
    ensures LastHeard(rs, first) == if rs[j].outcome.Failed? then Some(rs[j].outcome.error) else None
  {
    var next := Known(rs[0].outcome, first);
    if j == 0 {
      NothingSaid(rs[1..], next);
    } else {
      SaidLast(rs[1..], next, j - 1);
    }
  }

  lemma {:induction false} Heard(rs: seq<Round>, r: Round, first: Option<Error>)
    ensures LastHeard(rs + [r], first) == Known(r.outcome, LastHeard(rs, first))
  {
    if rs == [] {
      assert ([r])[1..] == [];
    } else {
      Heard(rs[1..], r, Known(rs[0].outcome, first));
      assert (rs + [r])[1..] == rs[1..] + [r];
    }
  }

  // ----- what the policy promises

  function Attempts(rs: seq<Round>): nat {
    if rs == [] then 0 else Attempts(rs[1..]) + if rs[0].outcome.NotCalled? then 0 else 1
  }

  lemma {:induction false} AttemptsAtMost(rs: seq<Round>)
    ensures Attempts(rs) <= |rs|
  {
    if rs != [] {
      AttemptsAtMost(rs[1..]);
    }
  }

  /** The turns end at the first conclusive one, and before that only when they are used up. */
  lemma {:induction false} RoundsShape(w: World, left: int, c: Cursor)
    ensures var rs := Rounds(w, left, c);
      && |rs| <= (if left > 0 then left else 0)
      && (forall j :: 0 <= j < |rs| - 1 ==> !Conclusive(rs[j].outcome))
      && (0 < |rs| < left ==> Conclusive(rs[|rs| - 1].outcome))
      && (left > 0 ==> rs != [])
    decreases left
  {
    if left > 0 {
      RoundsShape(w, left - 1, Advance(w, c));
    }
  }

  /** Never more than `retries` plus one attempts, and none after a success, a service error or a context error. */
  lemma AttemptBound(w: World, retries: int)
    requires retries >= 0
    ensures var rs := CallRounds(w, retries);
      && Attempts(rs) <= |rs| <= retries + 1
      && (forall j :: 0 <= j < |rs| - 1 ==>
            rs[j].outcome == NotCalled
            || (rs[j].outcome.Failed? && rs[j].outcome.error !in {ServiceError, DeadlineExceeded, Canceled}))
      && (w.mode != Failfast && 0 < |rs| <= retries ==>
            rs[|rs| - 1].outcome == Succeeded
            || (rs[|rs| - 1].outcome.Failed? && rs[|rs| - 1].outcome.error in {ServiceError, DeadlineExceeded, Canceled}))
  {
    RoundsShape(w, retries + 1, Cursor(0, 0, w.pick(0).err));
    AttemptsAtMost(CallRounds(w, retries));
  }

  /** When there are turns at all: not after a first selection that the context cut short, nor under Failfast after any that failed. */
  lemma TurnsTaken(w: World, retries: int)
    requires retries >= 0
    ensures CallRounds(w, retries) == [] <==>
            w.pick(0).err == Some(DeadlineExceeded) || w.pick(0).err == Some(Canceled)
            || (w.mode == Failfast && w.pick(0).err.Some?)
    ensures w.mode == Failfast ==> |CallRounds(w, retries)| <= 1
  {
    RoundsShape(w, retries + 1, Cursor(0, 0, w.pick(0).err));
  }

  /**
   * Turn `j` of a call: under Failover it asks the server of the j-th selection, otherwise always that of
   * the first; it makes an attempt exactly when that selection has a client, and gets the answer after
   * those of all attempts before it.
   */
  lemma TurnOfCall(w: World, retries: int, j: nat) returns (m: nat)
    requires j < |CallRounds(w, retries)|
    ensures var r := CallRounds(w, retries)[j];
      && r.key == (if w.mode == Failover then w.pick(j).key else w.pick(0).key)
      && m == Attempts(CallRounds(w, retries)[..j])
      && r.outcome == (if w.pick(j).err.Some? then NotCalled
                       else match w.answer(m) case None => Succeeded case Some(e) => Failed(e))
  {
    if w.mode == Failfast {
      m := 0;
    } else {
      m := AnswersInOrder(w, retries + 1, Cursor(0, 0, w.pick(0).err), j, j);
    }
  }

  /** The attempts counted are the turns in which a client was called. */
  lemma {:induction false} AttemptsAre(rs: seq<Round>)
    ensures Attempts(rs) == |set j | 0 <= j < |rs| && rs[j].outcome != NotCalled|
  {
    var called := set j | 0 <= j < |rs| && rs[j].outcome != NotCalled;
    if rs == [] {
      assert called == {};
    } else {
      var n := |rs| - 1;
      AttemptsAre(rs[..n]);
      AttemptsSnoc(rs[..n], rs[n]);
      assert rs == rs[..n] + [rs[n]];
      assert called == (set j | 0 <= j < n && rs[..n][j].outcome != NotCalled) + if rs[n].outcome == NotCalled then {} else {n};
    }
  }

  lemma {:induction false} AttemptsSnoc(rs: seq<Round>, r: Round)
    ensures Attempts(rs + [r]) == Attempts(rs) + if r.outcome.NotCalled? then 0 else 1
  {
    if rs == [] {
      assert ([r])[1..] == [];
    } else {
      AttemptsSnoc(rs[1..], r);
      assert (rs + [r])[1..] == rs[1..] + [r];
    }
  }

  /** Nothing bad was heard: the last attempt succeeded, or there was none to hear of. */
  lemma {:induction false} NothingHeard(rs: seq<Round>, first: Option<Error>)
    requires forall j :: 0 <= j < |rs| - 1 ==> !Conclusive(rs[j].outcome)
    ensures LastHeard(rs, first) == None <==>
            (rs != [] && rs[|rs| - 1].outcome == Succeeded) || (first == None && Attempts(rs) == 0)
  {
    if rs != [] {
      NothingHeard(rs[1..], Known(rs[0].outcome, first));
    }
  }

  /** The call reports success and its last turn was a successful attempt. */
  predicate SuccessIsReal(w: World, retries: int) {
    var rs := CallRounds(w, retries);
    LastHeard(rs, w.pick(0).err) == None <==> rs != [] && rs[|rs| - 1].outcome == Succeeded
  }

  /**
   * A call reports success if and only if its last attempt succeeded, except in one case: with a negative
   * number of retries nothing is attempted, and a selection without error passes for a success.
   */
  lemma SuccessExactly(w: World, retries: int)
    ensures SuccessIsReal(w, retries) <==> retries >= 0 || w.mode == Failfast || w.pick(0).err.Some?
  {
    var first := w.pick(0).err;
    RoundsShape(w, retries + 1, Cursor(0, 0, first));
    var rs := CallRounds(w, retries);
    NothingHeard(rs, first);
    assert rs != [] && first == None ==> rs[0].outcome != NotCalled;
  }

  /** Turn `j` takes the selection due, and the answer after those of all attempts before it. */
  lemma {:induction false} AnswersInOrder(w: World, left: int, c: Cursor, j: nat, at: nat) returns (m: nat)
    requires j < |Rounds(w, left, c)| && at == c.i + j
    ensures m == c.n + Attempts(Rounds(w, left, c)[..j])
    ensures Rounds(w, left, c)[j].key == w.KeyAt(at)
    ensures Rounds(w, left, c)[j].outcome == w.OutcomeAt(at, m)
    decreases left
  {
    if j == 0 {
      m := c.n;
    } else {
      var l, k, next := left - 1, j - 1, Advance(w, c);
      m := AnswersInOrder(w, l, next, k, at);
      CountFirst(Rounds(w, left, c), TurnAt(w, c), Rounds(w, l, next), j, k);
    }
  }

  lemma CountFirst(rs: seq<Round>, r: Round, more: seq<Round>, j: nat, k: nat)
    requires rs == [r] + more && j == k + 1 && j < |rs|
    ensures rs[j] == more[k]
    ensures Attempts(rs[..j]) == Attempts(more[..k]) + if r.outcome.NotCalled? then 0 else 1
  {
    assert rs[..j][1..] == more[..k];
  }

  /** A failed attempt has its client removed exactly when it decides nothing. */
  predicate RemovesAfterFailure(rs: seq<Round>) {
    forall j :: 0 <= j < |rs| && rs[j].outcome.Failed? ==>
      (rs[j].removed <==> rs[j].outcome.error !in {ServiceError, DeadlineExceeded, Canceled})
  }

  /** Also a turn without a client asks for the removal of what is cached, which is nothing. */
  predicate RemovesAlways(rs: seq<Round>) {
    forall j :: 0 <= j < |rs| && !rs[j].outcome.Failed? ==> (rs[j].removed <==> rs[j].outcome == NotCalled)
  }

  lemma {:induction false} RemovalsFrom(w: World, left: int, c: Cursor)
    ensures RemovesAfterFailure(Rounds(w, left, c))
    ensures UncoverError(c.err) ==> RemovesAlways(Rounds(w, left, c))
    decreases left
  {
    if left > 0 && !Conclusive(Coming(w, c)) {
      RemovalsFrom(w, left - 1, Advance(w, c));
    }
  }

  /**
   * So a client whose attempt failed without deciding the call never stays in the cache. Turns without a
   * client do the same, unless the first selection itself reported a service error, which only a hook on
   * new connections or a foreign client builder can make it do.
   */
  lemma FailedClientsRemoved(w: World, retries: int)
    ensures RemovesAfterFailure(CallRounds(w, retries))
    ensures retries >= 0 ==>
      (RemovesAlways(CallRounds(w, retries)) <==> w.mode == Failfast || w.pick(0).err != Some(ServiceError))
  {
    var first := w.pick(0).err;
    RemovalsFrom(w, retries + 1, Cursor(0, 0, first));
    if first == Some(ServiceError) && w.mode != Failfast && retries >= 0 {
      assert CallRounds(w, retries)[0] == TurnAt(w, Cursor(0, 0, first));
    }
  }
}
