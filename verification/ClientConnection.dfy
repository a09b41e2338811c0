/**
 * The client object itself: each lock region as a method on its fields, proved to be the step of the
 * same name on the table, and the reader loop with its final sweep.
 */
module ClientConnection {
  import opened Words
  import opened PendingCalls

  datatype CallError =
    | NoError | ErrShutdown | ErrUnsupportedCodec | EncodeError | WriteError | ContextError
    | ServerError | DecodeError | ReadError | UnexpectedEOF

  /** An active call: its error, and how often `done` strobed its channel. */
  class Call {
    var error: CallError
    var signals: nat

    constructor ()
      ensures error == NoError && signals == 0
    {
      error, signals := NoError, 0;
    }

    method Strobe()
      modifies this`signals
      ensures signals == old(signals) + 1
    {
      signals := signals + 1;
    }

    method Complete(e: CallError)
      modifies this
      ensures error == e && signals == old(signals) + 1
    {
      error := e;
      Strobe();
    }
  }

  /**
   * What the reader decodes from the connection. A response is faulted when its status says so; the status
   * does not travel, so only a plugin that changes the message can make it so. Its error is described in
   * the metadata, if there are any.
   */
  datatype Frame = ServerMessage | Response(s: uint64, outcome: Outcome)
  datatype Outcome = Delivered | Faulted(described: bool) | Undecodable

  /** How the connection stopped yielding frames. */
  datatype ReadFailure = EndOfStream | OtherFailure

  /** The outcome of the first response to number `k`, if there is one. */
  function FirstOutcome(frames: seq<Frame>, k: uint64): Option<Outcome> {
    if frames == [] then None else
      var earlier, last := FirstOutcome(frames[..|frames| - 1], k), frames[|frames| - 1];
      if earlier.Some? then earlier
      else if last.Response? && last.s == k then Some(last.outcome) else None
  }

  /** Frame `i` is a reply to a call still waiting, but cannot be decoded: the reader gives up on the connection. */
  predicate Undecoded<C>(pending: map<uint64, C>, frames: seq<Frame>, i: nat)
    requires i < |frames|
  {
    frames[i].Response? && frames[i].outcome.Undecodable?
    && frames[i].s in pending && FirstOutcome(frames[..i], frames[i].s) == None
  }

  /** None of the first `n` frames but possibly the last makes the reader give up; `stop` says whether that one does. */
  predicate StopsAt<C>(pending: map<uint64, C>, frames: seq<Frame>, n: nat, stop: bool)
    requires n <= |frames|
  {
    && (forall i :: 0 <= i < n - 1 ==> !Undecoded(pending, frames, i))
    && stop == (n > 0 && Undecoded(pending, frames, n - 1))
  }

  /** The entries no frame has answered. */
  function Unanswered<C>(pending: map<uint64, C>, frames: seq<Frame>): map<uint64, C> {
    map k | k in pending && FirstOutcome(frames, k) == None :: pending[k]
  }

  function OutcomeError(o: Outcome, before: CallError): CallError {
    match o
    case Delivered => before
    case Faulted(described) => if described then ServerError else before
    case Undecodable => DecodeError
  }

  ghost predicate Unique(calls: map<uint64, Call>) {
    forall j, k :: j in calls && k in calls && calls[j] == calls[k] ==> j == k
  }

  /** The error of a call after the reader's end, if it had the error `before` and the reader ended with `e`. */
  predicate FinalError(o: Option<Outcome>, before: CallError, e: CallError, after: CallError) {
    e != NoError && after == match o case Some(x) => OutcomeError(x, before) case None => e
  }

  class Client {
    var nextSeq: uint64
    var pending: map<uint64, Call>
    var closing: bool
    var shutdown: bool
    var pluginClosed: bool
    var notices: nat

    ghost function View(): Table<Call>
      reads this
    {
      Table(nextSeq, pending, closing, shutdown, pluginClosed, notices)
    }

    /** Everything but the table. */
    ghost function Others(): (uint64, bool, bool, bool, nat)
      reads this
    {
      (nextSeq, closing, shutdown, pluginClosed, notices)
    }

    /** No call waits under two numbers. */
    ghost predicate Valid()
      reads this
    {
      Unique(pending)
    }

    constructor ()
      ensures Valid() && View() == NewTable()
    {
      nextSeq, pending, notices := 0, map[], 0;
      closing, shutdown, pluginClosed := false, false, false;
    }

    /** First lock region of `send`: either the call is refused or it is entered under the next number. */
    method TryRegister(call: Call, codecKnown: bool) returns (registered: bool, s: uint64)
      requires Valid() && call !in pending.Values
      modifies this, call`error
      ensures Valid()
      ensures registered == !Refuses(old(View()), codecKnown) == (!old(shutdown) && !old(closing) && codecKnown)
      ensures registered ==> View() == Register(old(View()), call) && s == old(nextSeq) && call.error == old(call.error)
      ensures registered ==> pending == old(pending)[s := call] && nextSeq == (s + 1) % TWO_64
      ensures !registered ==> View() == old(View())
      ensures !registered ==> call.error == if shutdown || closing then ErrShutdown else ErrUnsupportedCodec
    {
      registered, s := false, nextSeq;
      if shutdown || closing {
        call.error := ErrShutdown;
        return;
      }
      if !codecKnown {
        call.error := ErrUnsupportedCodec;
        return;
      }
      registered := true;
      nextSeq := (nextSeq + 1) % TWO_64;
      pending := pending[s := call];
    }

    /** The region that takes a number out of the table and keeps hold of its call. */
    method TakeOut(s: uint64) returns (call: Call?)
      requires Valid()
      modifies this
      ensures Valid() && View() == Remove(old(View()), s) && pending == old(pending) - {s}
      ensures call == match Find(old(View()), s) case Some(c) => c case None => null
    {
      call := if s in pending then pending[s] else null;
      pending := pending - {s};
    }

    method NotifyPlugins()
      modifies this`pluginClosed, this`notices
      ensures View() == Notify(old(View()))
    {
      if !pluginClosed {
        notices := notices + 1;
        pluginClosed := true;
      }
    }

    /** Completes every entry of the table, in any order. */
    method CompleteAll(entries: map<uint64, Call>, e: CallError)
      requires Unique(entries)
      modifies entries.Values
      ensures forall c :: c in entries.Values ==> c.error == e && c.signals == old(c.signals) + 1
    {
      var todo := entries.Keys;
      while todo != {}
        invariant todo <= entries.Keys
        invariant forall k :: k in entries ==>
          if k in todo then entries[k].signals == old(entries[k].signals)
          else entries[k].error == e && entries[k].signals == old(entries[k].signals) + 1
        decreases todo
      {
        var k :| k in todo;
        entries[k].Complete(e);
        todo := todo - {k};
      }
    }

    /** Close: every waiting call fails with ErrShutdown; a second Close reports ErrShutdown itself. */
    method CloseConnection() returns (e: CallError)
      requires Valid()
      modifies this, pending.Values
      ensures Valid() && View() == Close(old(View())) && pending == map[]
      ensures shutdown == old(shutdown) && closing == (old(closing) || !old(shutdown))
      ensures pluginClosed && notices == old(notices) + if old(pluginClosed) then 0 else 1
      ensures e == if old(closing || shutdown) then ErrShutdown else NoError
      ensures forall c :: c in old(pending).Values ==> c.error == ErrShutdown && c.signals == old(c.signals) + 1
    {
      CompleteAll(pending, ErrShutdown);
      pending := map[];
      NotifyPlugins();
      if closing || shutdown {
        return ErrShutdown;
      }
      closing := true;
      return NoError;
    }

    /** The reader's last region: every waiting call fails with the read error, and all entries stay. */
    method FinishReading(e: CallError)
      requires Valid()
      modifies this`shutdown, this`pluginClosed, this`notices, pending.Values
      ensures Valid() && View() == Sweep(old(View())) && shutdown && pending == old(pending)
      ensures pluginClosed && notices == old(notices) + if old(pluginClosed) then 0 else 1
      ensures forall c :: c in pending.Values ==> c.error == e && c.signals == old(c.signals) + 1
    {
      NotifyPlugins();
      shutdown := true;
      CompleteAll(pending, e);
    }

    /** `send` as one thread runs it when no other thread interferes. */
    method Send(call: Call, codecKnown: bool, encodes: bool, writes: bool, oneway: bool) returns (registered: bool)
      requires Valid() && call !in pending.Values
      modifies this, call
      ensures Valid()
      ensures registered == !Refuses(old(View()), codecKnown)
      ensures registered ==> nextSeq == (old(nextSeq) + 1) % TWO_64
      ensures !registered ==> View() == old(View()) && call.signals == old(call.signals) + 1
      ensures registered && encodes && writes && !oneway ==>
                View() == Register(old(View()), call) && call.signals == old(call.signals)
      ensures registered && !(encodes && writes && !oneway) ==>
                pending == old(pending) - {old(nextSeq)} && call.signals == old(call.signals) + 1
      ensures registered ==> call.error == (if !encodes then EncodeError
                                            else if !writes then WriteError else old(call.error))
    {
      var s;
      registered, s := TryRegister(call, codecKnown);
      if !registered {
        call.Strobe();
        return;
      }
      if !encodes {
        pending := pending - {s};
        call.Complete(EncodeError);
      } else if !writes {
        var taken := TakeOut(s);
        if taken != null {
          taken.Complete(WriteError);
        }
      } else if oneway {
        var taken := TakeOut(s);
        if taken != null {
          taken.Strobe();
        }
      }
    }

    /** One turn of the reader loop; `stop` when the reply could not be decoded. */
    method Answer(frame: Frame) returns (stop: bool)
      requires Valid()
      modifies this, pending.Values
      ensures Valid() && nextSeq == old(nextSeq) && closing == old(closing) && shutdown == old(shutdown)
      ensures pluginClosed == old(pluginClosed) && notices == old(notices)
      ensures pending == if frame.Response? then old(pending) - {frame.s} else old(pending)
      ensures forall k :: k in old(pending) ==>
        var c := old(pending)[k];
        if frame.Response? && frame.s == k
        then c.signals == old(c.signals) + 1 && c.error == match frame.outcome
                                                            case Delivered => old(c.error)
                                                            case Faulted(described) => if described then ServerError else old(c.error)
                                                            case Undecodable => DecodeError
        else c.signals == old(c.signals) && c.error == old(c.error)
      ensures stop == (frame.Response? && frame.outcome.Undecodable? && frame.s in old(pending))
    {
      stop := false;
      if frame.ServerMessage? {
        return;
      }
      var call := TakeOut(frame.s);
      if call == null {
        return;
      }
      match frame.outcome {
        case Delivered => call.Strobe();
        case Faulted(described) =>
          if described {
            call.Complete(ServerError);
          } else {
            call.Strobe();
          }
        case Undecodable =>
          call.Complete(DecodeError);
          stop := true;
      }
    }

    /**
     * The reader: answers frames until the connection fails or a reply cannot be decoded, then sweeps.
     * Every call that was waiting is completed exactly once, by its first response or by the sweep.
     */
    method Input(frames: seq<Frame>, failure: ReadFailure) returns (n: nat, e: CallError)
      requires Valid()
      modifies this, pending.Values
      ensures Valid() && n <= |frames|
      ensures forall i :: 0 <= i < n - 1 ==> !Undecoded(old(pending), frames, i)
      ensures n < |frames| ==> n > 0 && Undecoded(old(pending), frames, n - 1)
      ensures e == if n > 0 && Undecoded(old(pending), frames, n - 1) then DecodeError
                   else if failure.OtherFailure? then ReadError
                   else if old(closing) then ErrShutdown else UnexpectedEOF
      ensures View() == Sweep(old(View()).(pending := Unanswered(old(pending), frames[..n])))
      ensures forall k :: k in old(pending) ==>
        var c := old(pending)[k];
        && c.signals == old(c.signals) + 1
        && c.error == match FirstOutcome(frames[..n], k)
                      case Some(Delivered) => old(c.error)
                      case Some(Faulted(described)) => if described then ServerError else old(c.error)
                      case Some(Undecodable) => DecodeError
                      case None => e
      ensures forall k :: k in old(pending) && old(pending[k].error) == NoError ==>
        (old(pending)[k].error == NoError <==>
         FirstOutcome(frames[..n], k) == Some(Delivered) || FirstOutcome(frames[..n], k) == Some(Faulted(false)))
    {
      ghost var waiting := pending;
      ghost var signals := map k | k in pending :: pending[k].signals;
      ghost var errors := map k | k in pending :: pending[k].error;
      var stop;
      n, stop := ReadLoop(frames, waiting, signals, errors);
      if stop {
        e := DecodeError;
      } else if failure.OtherFailure? {
        e := ReadError;
      } else {
        e := if closing then ErrShutdown else UnexpectedEOF;
      }
      SweepRest(e, waiting, frames[..n], signals, errors);
    }

    /** The final region, seen from the table `waiting` before the first frame. */
    method SweepRest(e: CallError, ghost waiting: map<uint64, Call>, ghost frames: seq<Frame>,
                     ghost signals: map<uint64, nat>, ghost errors: map<uint64, CallError>)
      requires Valid() && Unique(waiting) && pending == Unanswered(waiting, frames)
      requires AllAnswered(waiting, frames, signals, errors) && e != NoError
      modifies this`shutdown, this`pluginClosed, this`notices, pending.Values
      ensures Valid() && View() == Sweep(old(View()))
      ensures forall k :: k in waiting ==> waiting[k].signals == signals[k] + 1
      ensures forall k :: k in waiting ==>
        waiting[k].error == match FirstOutcome(frames, k)
                            case Some(Delivered) => errors[k]
                            case Some(Faulted(described)) => if described then ServerError else errors[k]
                            case Some(Undecodable) => DecodeError
                            case None => e
      ensures forall k :: k in waiting && errors[k] == NoError ==>
        (waiting[k].error == NoError <==>
         FirstOutcome(frames, k) == Some(Delivered) || FirstOutcome(frames, k) == Some(Faulted(false)))
    {
      SweepWaiting(e, waiting, frames, signals, errors);
      forall o, before, after | FinalError(o, before, e, after)
        ensures after == match o
                         case Some(Delivered) => before
                         case Some(Faulted(described)) => if described then ServerError else before
                         case Some(Undecodable) => DecodeError
                         case None => e
        ensures before == NoError ==> (after == NoError <==> o == Some(Delivered) || o == Some(Faulted(false)))
      {
      }
    }

    method SweepWaiting(e: CallError, ghost waiting: map<uint64, Call>, ghost frames: seq<Frame>,
                        ghost signals: map<uint64, nat>, ghost errors: map<uint64, CallError>)
      requires Valid() && Unique(waiting) && pending == Unanswered(waiting, frames)
      requires AllAnswered(waiting, frames, signals, errors) && e != NoError
      modifies this`shutdown, this`pluginClosed, this`notices, pending.Values
      ensures Valid() && View() == Sweep(old(View()))
      ensures forall k :: k in waiting ==>
        waiting[k].signals == signals[k] + 1 && FinalError(FirstOutcome(frames, k), errors[k], e, waiting[k].error)
    {
      ghost var left := pending;
      forall k | k in waiting ensures waiting[k] in left.Values <==> FirstOutcome(frames, k) == None {
        if FirstOutcome(frames, k) == None {
          assert left[k] == waiting[k];
        }
      }
      FinishReading(e);
    }

    /** The reader loop before its final region. */
    method ReadLoop(frames: seq<Frame>, ghost waiting: map<uint64, Call>,
                    ghost signals: map<uint64, nat>, ghost errors: map<uint64, CallError>) returns (n: nat, stop: bool)
      requires Valid() && Unique(waiting) && waiting == pending && SoFar(waiting, frames, 0, false, signals, errors)
      modifies this, pending.Values
      ensures Valid() && n <= |frames| && (n < |frames| ==> stop) && Others() == old(Others())
      ensures SoFar(waiting, frames, n, stop, signals, errors)
    {
      stop, n := false, 0;
      while !stop && n < |frames|
        invariant Valid() && n <= |frames| && Others() == old(Others())
        invariant SoFar(waiting, frames, n, stop, signals, errors) && pending.Values <= waiting.Values
        decreases |frames| - n
      {
        stop := AnswerNext(frames, n, waiting, signals, errors);
        n := n + 1;
      }
    }

    /** What holds after `n` turns of the reader loop that began with the table `waiting`. */
    ghost predicate SoFar(waiting: map<uint64, Call>, frames: seq<Frame>, n: nat, stop: bool,
                          signals: map<uint64, nat>, errors: map<uint64, CallError>)
      requires n <= |frames|
      reads this, waiting.Values
    {
      && pending == Unanswered(waiting, frames[..n])
      && AllAnswered(waiting, frames[..n], signals, errors)
      && StopsAt(waiting, frames, n, stop)
    }

    /** One turn of the reader loop. */
    method AnswerNext(frames: seq<Frame>, n: nat, ghost waiting: map<uint64, Call>,
                      ghost signals: map<uint64, nat>, ghost errors: map<uint64, CallError>) returns (stop: bool)
      requires Valid() && n < |frames| && SoFar(waiting, frames, n, false, signals, errors)
      requires Unique(waiting)
      modifies this, pending.Values
      ensures Valid() && Others() == old(Others()) && pending.Values <= old(pending.Values)
      ensures SoFar(waiting, frames, n + 1, stop, signals, errors)
    {
      UnansweredNext(waiting, frames, n);
      stop := Answer(frames[n]);
      forall k | k in waiting
        ensures Answered(waiting[k], FirstOutcome(frames[..n + 1], k), signals[k], errors[k])
      {
        if k !in old(pending) {
          assert waiting[k] !in old(pending).Values;
        }
      }
    }
  }

  lemma UnansweredNext<C>(pending: map<uint64, C>, frames: seq<Frame>, n: nat)
    requires n < |frames|
    ensures Unanswered(pending, frames[..n + 1]) ==
      if frames[n].Response? then Unanswered(pending, frames[..n]) - {frames[n].s}
      else Unanswered(pending, frames[..n])
    ensures forall k :: FirstOutcome(frames[..n + 1], k) ==
                          (if FirstOutcome(frames[..n], k) == None && frames[n].Response? && frames[n].s == k
                           then Some(frames[n].outcome) else FirstOutcome(frames[..n], k))
  {
    assert frames[..n + 1][..n] == frames[..n];
  }

  /** The state of a call that had `signals` and `error` before the frames that made `outcome` of it. */
  ghost predicate Answered(c: Call, outcome: Option<Outcome>, signals: nat, error: CallError)
    reads c
  {
    match outcome
    case Some(o) => c.signals == signals + 1 && c.error == OutcomeError(o, error)
    case None => c.signals == signals && c.error == error
  }

  ghost predicate AllAnswered(waiting: map<uint64, Call>, frames: seq<Frame>,
                              signals: map<uint64, nat>, errors: map<uint64, CallError>)
    reads waiting.Values
  {
    && signals.Keys == errors.Keys == waiting.Keys
    && forall k :: k in waiting ==> Answered(waiting[k], FirstOutcome(frames, k), signals[k], errors[k])
  }
}
