/** handler.go: streaming calls. */
module Streams {
  // The bidirectional protocol is a state machine of a sender goroutine and a receive loop, in which
  // every call into the transport or the StreamIO is one step, and steps interleave in any order.

  import opened Option

  type Msg = string

  /** An error as a callee returns it. */
  datatype Raw = RawEOF | RawError(id: nat)

  datatype Stage = Reading | Sending | Closing | Receiving | Handling | Surplus

  /** An error as the stream functions see it: io.EOF itself, or an error of some stage. */
  datatype Err = EOF | Failure(stage: Stage, cause: Raw)

  /** NextRequest, SendMessage, ReceiveMessage and HandleResponse: io.EOF stays io.EOF. */
  function Passed(stage: Stage, r: Raw): Err { if r == RawEOF then EOF else Failure(stage, r) }

  /** closeSendStream wraps every error, io.EOF too. */
  function Wrapped(stage: Stage, r: Raw): Err { Failure(stage, r) }

  predicate Real(e: Option<Err>) { e.Some? && e.value != EOF }

  // ---- The machine

  /** The sender is about to call NextRequest, to send, to close, to cancel the context; or is done. */
  datatype Sender = Fetching | InSend(msg: Msg) | InClose | Cancelling(err: Err) | SenderDone(sendErr: Option<Err>)

  /** The receive loop is about to receive, to handle, to cancel the context, to wait for the sender;
      or makeBidiStream has returned. */
  datatype Receiver = InReceive | InHandle(msg: Msg) | Leaving(err: Err) | Joining(err: Err)
                    | Returned(receiveErr: Err, result: Option<Err>)

  /** NextRequest returns the requests one by one and then tail. The history: what was sent
      successfully, how often the send side was closed, what was received and handled. */
  datatype State = State(
    requests: seq<Msg>, tail: Raw, cursor: nat, sender: Sender, receiver: Receiver,
    cancelled: bool, expired: bool,
    sent: seq<Msg>, closes: nat, received: seq<Msg>, handled: seq<Msg>)

  datatype Arrival = Message(msg: Msg) | Broken(err: Raw)

  /** With each step what its callee returns. */
  datatype Action =
    | Fetch | Send(failed: Option<Raw>) | Close(failed: Option<Raw>) | CancelBySender
    | Receive(arrival: Arrival) | Handle(failed: Option<Raw>) | CancelByReceiver | Join
    | Deadline

  predicate Enabled(s: State, a: Action) {
    match a
    case Fetch => s.sender.Fetching?
    case Send(_) => s.sender.InSend?
    case Close(_) => s.sender.InClose?
    case CancelBySender => s.sender.Cancelling?
    case Receive(_) => s.receiver.InReceive?
    case Handle(_) => s.receiver.InHandle?
    case CancelByReceiver => s.receiver.Leaving?
    case Join => s.receiver.Joining? && s.sender.SenderDone?
    case Deadline => !s.expired
  }

  /** What makeBidiStream returns. */
  function Result(sendErr: Option<Err>, receiveErr: Err): Option<Err> {
    if Real(sendErr) then sendErr else if receiveErr != EOF then Some(receiveErr) else None
  }

  function Step(s: State, a: Action): State
    requires Enabled(s, a)
  {
    match a
    case Fetch =>
      if s.cursor < |s.requests| then s.(cursor := s.cursor + 1, sender := InSend(s.requests[s.cursor]))
      else if s.tail == RawEOF then s.(sender := InClose)
      else s.(sender := Cancelling(Passed(Reading, s.tail)))
    case Send(None) => s.(sent := s.sent + [s.sender.msg], sender := Fetching)
    case Send(Some(r)) => s.(sender := SenderDone(Some(Passed(Sending, r))))
    case Close(None) => s.(closes := s.closes + 1, sender := SenderDone(None))
    case Close(Some(r)) => s.(closes := s.closes + 1, sender := SenderDone(Some(Wrapped(Closing, r))))
    case CancelBySender => s.(cancelled := true, sender := SenderDone(Some(s.sender.err)))
    case Receive(Message(m)) => s.(received := s.received + [m], receiver := InHandle(m))
    case Receive(Broken(r)) => s.(receiver := Leaving(Passed(Receiving, r)))
    case Handle(None) => s.(handled := s.handled + [s.receiver.msg], receiver := InReceive)
    case Handle(Some(r)) => s.(receiver := Leaving(Passed(Handling, r)))
    case CancelByReceiver => s.(cancelled := true, receiver := Joining(s.receiver.err))
    case Join => s.(receiver := Returned(s.receiver.err, Result(s.sender.sendErr, s.receiver.err)))
    case Deadline => s.(cancelled := true, expired := true)
  }

  function Start(requests: seq<Msg>, tail: Raw): State {
    State(requests, tail, 0, Fetching, InReceive, false, false, [], 0, [], [])
  }

  predicate Runs(s: State, acts: seq<Action>)
    decreases |acts|
  {
    acts == [] || (Enabled(s, acts[0]) && Runs(Step(s, acts[0]), acts[1..]))
  }

  function After(s: State, acts: seq<Action>): State
    requires Runs(s, acts)
    decreases |acts|
  {
    if acts == [] then s else After(Step(s, acts[0]), acts[1..])
  }

  // ---- The invariant

  predicate AllSent(s: State) { s.cursor == |s.sent| == |s.requests| }

  /** The sender ended with closing, whether that failed or not. */
  predicate HasClosed(p: Sender) {
    && p.SenderDone?
    && (p.sendErr.None? || (p.sendErr.value.Failure? && p.sendErr.value.stage == Closing))
  }

  predicate SenderInvariant(s: State) {
    && s.cursor <= |s.requests| && |s.sent| <= s.cursor <= |s.sent| + 1
    && (forall i | 0 <= i < |s.sent| :: s.sent[i] == s.requests[i])
    && s.closes == (if HasClosed(s.sender) then 1 else 0)
    && match s.sender {
         case Fetching => s.cursor == |s.sent|
         case InSend(m) => s.cursor == |s.sent| + 1 && m == s.requests[|s.sent|]
         case InClose => AllSent(s) && s.tail == RawEOF
         case Cancelling(e) => AllSent(s) && s.tail != RawEOF && e == Passed(Reading, s.tail)
         case SenderDone(None) => AllSent(s) && s.tail == RawEOF
         case SenderDone(Some(EOF)) => s.cursor == |s.sent| + 1
         case SenderDone(Some(Failure(Reading, r))) => AllSent(s) && s.tail != RawEOF && r == s.tail && s.cancelled
         case SenderDone(Some(Failure(Sending, r))) => s.cursor == |s.sent| + 1 && r != RawEOF
         case SenderDone(Some(Failure(Closing, _))) => AllSent(s) && s.tail == RawEOF
         case SenderDone(Some(Failure(_, _))) => false
       }
  }

  predicate ReceiverInvariant(s: State) {
    && |s.handled| <= |s.received| <= |s.handled| + 1
    && (forall i | 0 <= i < |s.handled| :: s.handled[i] == s.received[i])
    && match s.receiver {
         case InReceive => |s.received| == |s.handled|
         case InHandle(m) => |s.received| == |s.handled| + 1 && m == s.received[|s.handled|]
         case Leaving(_) => true
         case Joining(_) => s.cancelled
         case Returned(e, result) =>
           s.cancelled && s.sender.SenderDone? && result == Result(s.sender.sendErr, e)
       }
  }

  predicate BySender(a: Action) { a.Fetch? || a.Send? || a.Close? || a.CancelBySender? }

  lemma SenderKeepsSender(s: State, a: Action)
    requires SenderInvariant(s) && Enabled(s, a) && BySender(a)
    ensures SenderInvariant(Step(s, a))
  {
  }

  lemma OthersKeepSender(s: State, a: Action)
    requires SenderInvariant(s) && Enabled(s, a) && !BySender(a)
    ensures SenderInvariant(Step(s, a))
  {
    OthersTouch(s, a);
    hide Step, Enabled, HasClosed;
  }

  lemma OthersTouch(s: State, a: Action)
    requires Enabled(s, a) && !BySender(a)
    ensures var t := Step(s, a);
            && t.requests == s.requests && t.tail == s.tail && t.cursor == s.cursor && t.sender == s.sender
            && t.sent == s.sent && t.closes == s.closes && (s.cancelled ==> t.cancelled)
  {
  }

  lemma StepKeepsSender(s: State, a: Action)
    requires SenderInvariant(s) && Enabled(s, a)
    ensures SenderInvariant(Step(s, a))
  {
    hide SenderInvariant, Step, Enabled;
    if BySender(a) { SenderKeepsSender(s, a); } else { OthersKeepSender(s, a); }
  }

  lemma StepKeepsReceiver(s: State, a: Action)
    requires ReceiverInvariant(s) && Enabled(s, a)
    ensures ReceiverInvariant(Step(s, a))
  {
  }

  lemma StepKeepsInput(s: State, a: Action)
    requires Enabled(s, a)
    ensures Step(s, a).requests == s.requests && Step(s, a).tail == s.tail
  {
  }

  /** Both invariants hold at every point of every schedule. */
  lemma {:induction false} InvariantAlways(s: State, acts: seq<Action>)
    requires SenderInvariant(s) && ReceiverInvariant(s) && Runs(s, acts)
    ensures var t := After(s, acts);
            SenderInvariant(t) && ReceiverInvariant(t) && t.requests == s.requests && t.tail == s.tail
    decreases |acts|
  {
    hide SenderInvariant, ReceiverInvariant, Step, Enabled;
    if acts != [] {
      StepKeepsSender(s, acts[0]);
      StepKeepsReceiver(s, acts[0]);
      StepKeepsInput(s, acts[0]);
      InvariantAlways(Step(s, acts[0]), acts[1..]);
    }
  }

  lemma StartInvariant(requests: seq<Msg>, tail: Raw)
    ensures SenderInvariant(Start(requests, tail)) && ReceiverInvariant(Start(requests, tail))
  {
  }

  // ---- What every schedule keeps

  /** Sending: what was sent is a prefix of the requests, in order; the send side is closed at most
      once, and only after all requests were sent and the input ended; and the request cursor is
      ahead of the successful sends by at most one, by exactly one in a send or after a failed one. */
  lemma SendsInOrder(requests: seq<Msg>, tail: Raw, acts: seq<Action>)
    requires Runs(Start(requests, tail), acts)
    ensures var s := After(Start(requests, tail), acts);
            && s.sent <= requests && s.cursor <= |requests|
            && s.closes <= 1 && (s.closes == 1 ==> s.sent == requests && tail == RawEOF)
            && |s.sent| <= s.cursor <= |s.sent| + 1
            && (s.cursor == |s.sent| + 1 <==>
                s.sender.InSend? || (s.sender.SenderDone? && s.sender.sendErr.Some?
                                     && (s.sender.sendErr.value == EOF || s.sender.sendErr.value.stage == Sending)))
  {
    StartInvariant(requests, tail);
    InvariantAlways(Start(requests, tail), acts);
    hide Runs, After, ReceiverInvariant;
  }

  /** The result: nil exactly when neither side had an error other than EOF; the sender's error
      otherwise if it had one, whatever the receive loop saw. When the call has returned, the sender is
      done and the context cancelled. */
  lemma ResultOfBoth(requests: seq<Msg>, tail: Raw, acts: seq<Action>)
    requires Runs(Start(requests, tail), acts)
    ensures var s := After(Start(requests, tail), acts);
            s.receiver.Returned? ==>
              && s.sender.SenderDone? && s.cancelled
              && (s.receiver.result == None <==> !Real(s.sender.sendErr) && s.receiver.receiveErr == EOF)
              && (Real(s.sender.sendErr) ==> s.receiver.result == s.sender.sendErr)
              && (!Real(s.sender.sendErr) && s.receiver.receiveErr != EOF ==>
                   s.receiver.result == Some(s.receiver.receiveErr))
  {
    StartInvariant(requests, tail);
    InvariantAlways(Start(requests, tail), acts);
    hide Runs, After, SenderInvariant;
  }

  /** A NextRequest that fails is the error returned: if all requests were sent and the input then
      fails, the call, once it returns, returns that failure; the context is cancelled before the
      sender ends, and nothing was closed. */
  lemma FailingInputIsReturned(requests: seq<Msg>, tail: Raw, acts: seq<Action>)
    requires Runs(Start(requests, tail), acts) && tail != RawEOF
    ensures var s := After(Start(requests, tail), acts);
            && s.closes == 0
            && (s.sender.SenderDone? && s.sent == requests ==>
                  s.cancelled && s.sender.sendErr == Some(Failure(Reading, tail)))
            && (s.receiver.Returned? && s.sent == requests ==> s.receiver.result == Some(Failure(Reading, tail)))
  {
    StartInvariant(requests, tail);
    InvariantAlways(Start(requests, tail), acts);
    hide Runs, After;
  }

  /** A nil result: either everything was sent and the send side closed, or a send met EOF, the server
      having ended the stream, and exactly the request in hand was lost. */
  lemma NilResult(requests: seq<Msg>, tail: Raw, acts: seq<Action>)
    requires Runs(Start(requests, tail), acts)
    ensures var s := After(Start(requests, tail), acts);
            s.receiver.Returned? && s.receiver.result == None ==>
              || (s.sent == requests && tail == RawEOF && s.closes == 1)
              || (s.sender == SenderDone(Some(EOF)) && s.sent < requests && s.cursor == |s.sent| + 1 && s.closes == 0)
  {
    StartInvariant(requests, tail);
    InvariantAlways(Start(requests, tail), acts);
    hide Runs, After;
  }

  /** Responses are handled in the order received, none is skipped. */
  lemma HandledInOrder(requests: seq<Msg>, tail: Raw, acts: seq<Action>)
    requires Runs(Start(requests, tail), acts)
    ensures var s := After(Start(requests, tail), acts);
            s.handled <= s.received && |s.received| <= |s.handled| + 1
  {
    StartInvariant(requests, tail);
    InvariantAlways(Start(requests, tail), acts);
    hide Runs, After, SenderInvariant;
  }

  /** The sender ended because NextRequest failed. */
  predicate FailedReading(p: Sender) {
    p.SenderDone? && p.sendErr.Some? && p.sendErr.value.Failure? && p.sendErr.value.stage == Reading
  }

  /** Who has cancelled the context: the deadline, the receive loop on its way out, or a sender that could
      not read its input. */
  predicate Cancelled(s: State) {
    s.expired || s.receiver.Joining? || s.receiver.Returned? || FailedReading(s.sender)
  }

  lemma StepKeepsCancelled(s: State, a: Action)
    requires SenderInvariant(s) && Enabled(s, a) && (s.cancelled <==> Cancelled(s))
    ensures Step(s, a).cancelled <==> Cancelled(Step(s, a))
  {
  }

  lemma {:induction false} CancelledAlways(s: State, acts: seq<Action>)
    requires SenderInvariant(s) && (s.cancelled <==> Cancelled(s)) && Runs(s, acts)
    ensures After(s, acts).cancelled <==> Cancelled(After(s, acts))
    decreases |acts|
  {
    hide SenderInvariant, Cancelled, Step, Enabled;
    if acts != [] {
      StepKeepsSender(s, acts[0]);
      StepKeepsCancelled(s, acts[0]);
      CancelledAlways(Step(s, acts[0]), acts[1..]);
    }
  }

  /** In every reachable state the context is cancelled exactly if the deadline has passed, the receive
      loop has left, or the sender ended with a failed NextRequest. So a receive loop that still waits
      when the sender is done waits under a live context exactly if the sender ended in any other way
      and the deadline has not passed. */
  lemma CancelledIff(requests: seq<Msg>, tail: Raw, acts: seq<Action>)
    requires Runs(Start(requests, tail), acts)
    ensures var s := After(Start(requests, tail), acts);
            && (s.cancelled <==> s.expired || s.receiver.Joining? || s.receiver.Returned? || FailedReading(s.sender))
            && (s.sender.SenderDone? && s.receiver == InReceive ==>
                  (!s.cancelled <==> !FailedReading(s.sender) && !s.expired))
  {
    StartInvariant(requests, tail);
    CancelledAlways(Start(requests, tail), acts);
    hide Runs, After;
  }

  /** It happens: after a failed send the sender is done and the receive loop still waits under a live
      context. */
  lemma FailedSendLeavesReceiver(request: Msg, id: nat)
    ensures var acts := [Fetch, Send(Some(RawError(id)))];
            && Runs(Start([request], RawEOF), acts)
            && var s := After(Start([request], RawEOF), acts);
               s.sender.SenderDone? && Real(s.sender.sendErr) && s.receiver == InReceive && !s.cancelled
  {
    TwoSteps(Start([request], RawEOF), Fetch, Send(Some(RawError(id))));
    hide Runs, After;
  }

  lemma TwoSteps(s: State, a: Action, b: Action)
    requires Enabled(s, a) && Enabled(Step(s, a), b)
    ensures Runs(s, [a, b]) && After(s, [a, b]) == Step(Step(s, a), b)
  {
    hide Step, Enabled;
    var t := Step(s, a);
    var u := Step(t, b);
    assert [a, b][1..] == [b] && [b][1..] == [];
    assert Runs(u, []) && After(u, []) == u;
    assert Runs(t, [b]) && After(t, [b]) == u;
  }

  // ---- Every schedule ends

  function SenderSpent(s: State): nat {
    match s.sender
    case Fetching => 2 * |s.sent|
    case InSend(_) => 2 * |s.sent| + 1
    case InClose => 2 * |s.sent| + 1
    case Cancelling(_) => 2 * |s.sent| + 1
    case SenderDone(_) => 2 * |s.sent| + 2
  }

  function ReceiverSpent(s: State): nat {
    match s.receiver
    case InReceive => 2 * |s.handled|
    case InHandle(_) => 2 * |s.handled| + 1
    case Leaving(_) => 2 * |s.handled| + 2
    case Joining(_) => 2 * |s.handled| + 3
    case Returned(_, _) => 2 * |s.handled| + 4
  }

  function Spent(s: State): nat { SenderSpent(s) + ReceiverSpent(s) + if s.expired then 1 else 0 }

  lemma StepSpends(s: State, a: Action)
    requires Enabled(s, a)
    ensures Spent(Step(s, a)) > Spent(s)
  {
  }

  lemma {:induction false} RunSpends(s: State, acts: seq<Action>)
    requires Runs(s, acts)
    ensures Spent(After(s, acts)) >= Spent(s) + |acts|
    decreases |acts|
  {
    hide Step, Enabled, Spent;
    if acts != [] {
      StepSpends(s, acts[0]);
      RunSpends(Step(s, acts[0]), acts[1..]);
    }
  }

  /** Nothing but the deadline can happen. */
  ghost predicate Stuck(s: State) { forall a :: Enabled(s, a) ==> a == Deadline }

  /** Every schedule is finite, with a bound given by the requests and the responses received; and one
      that cannot be continued, save by the deadline, has returned. */
  lemma EverySessionEnds(requests: seq<Msg>, tail: Raw, acts: seq<Action>)
    requires Runs(Start(requests, tail), acts)
    ensures var s := After(Start(requests, tail), acts);
            |acts| <= 2 * |requests| + 2 * |s.received| + 7
    ensures var s := After(Start(requests, tail), acts);
            Stuck(s) ==> s.receiver.Returned?
  {
    hide Runs, After, Spent;
    StartInvariant(requests, tail);
    var s0 := Start(requests, tail);
    InvariantAlways(s0, acts);
    RunSpends(s0, acts);
    SpentBounded(After(s0, acts));
    StuckHasReturned(After(s0, acts));
    hide SenderInvariant, ReceiverInvariant;
  }

  lemma SpentBounded(s: State)
    requires SenderInvariant(s) && ReceiverInvariant(s)
    ensures Spent(s) <= 2 * |s.requests| + 2 * |s.received| + 7
  {
  }

  lemma StuckHasReturned(s: State)
    requires SenderInvariant(s)
    ensures Stuck(s) ==> s.receiver.Returned?
  {
    if !s.receiver.Returned? {
      var a := match s.receiver {
        case InReceive => Receive(Broken(RawEOF))
        case InHandle(_) => Handle(None)
        case Leaving(_) => CancelByReceiver
        case Joining(_) =>
          match s.sender {
            case Fetching => Fetch
            case InSend(_) => Send(None)
            case InClose => Close(None)
            case Cancelling(_) => CancelBySender
            case SenderDone(_) => Join
          }
        case Returned(_, _) => Deadline
      };
      assert Enabled(s, a) && a != Deadline;
    }
  }

  // ---- The shared variables

  /** A call of makeBidiStream: the variables its two goroutines share, where each stands, and the
      history. */
  class BidiCall {
    const requests: seq<Msg>
    const tail: Raw
    var cursor: nat
    var sender: Sender
    var receiver: Receiver
    var cancelled: bool
    var expired: bool
    var sent: seq<Msg>
    var closes: nat
    var received: seq<Msg>
    var handled: seq<Msg>

    function Snapshot(): State
      reads this
    {
      State(requests, tail, cursor, sender, receiver, cancelled, expired, sent, closes, received, handled)
    }

    constructor (requests: seq<Msg>, tail: Raw)
      ensures Snapshot() == Start(requests, tail)
    {
      this.requests, this.tail, cursor := requests, tail, 0;
      sender, receiver, cancelled, expired := Fetching, InReceive, false, false;
      sent, closes, received, handled := [], 0, [], [];
    }

    /** The sender's loop, one call at a time. */
    method StepSender(a: Action)
      requires Enabled(Snapshot(), a) && BySender(a)
      modifies this
      ensures Snapshot() == Step(old(Snapshot()), a)
    {
      match a {
        case Fetch =>
          if cursor < |requests| {
            sender := InSend(requests[cursor]);
            cursor := cursor + 1;
          } else if tail == RawEOF {
            sender := InClose;
          } else {
            sender := Cancelling(Passed(Reading, tail));
          }
        case Send(None) =>
          sent := sent + [sender.msg];
          sender := Fetching;
        case Send(Some(r)) =>
          sender := SenderDone(Some(Passed(Sending, r)));
        case Close(failed) =>
          closes := closes + 1;
          sender := SenderDone(if failed.Some? then Some(Wrapped(Closing, failed.value)) else None);
        case CancelBySender =>
          cancelled := true;
          sender := SenderDone(Some(sender.err));
      }
    }

    /** The receive loop and what follows it. */
    method StepReceiver(a: Action)
      requires Enabled(Snapshot(), a) && (a.Receive? || a.Handle? || a.CancelByReceiver? || a.Join?)
      modifies this
      ensures Snapshot() == Step(old(Snapshot()), a)
    {
      match a {
        case Receive(Message(m)) =>
          received := received + [m];
          receiver := InHandle(m);
        case Receive(Broken(r)) =>
          receiver := Leaving(Passed(Receiving, r));
        case Handle(None) =>
          handled := handled + [receiver.msg];
          receiver := InReceive;
        case Handle(Some(r)) =>
          receiver := Leaving(Passed(Handling, r));
        case CancelByReceiver =>
          cancelled := true;
          receiver := Joining(receiver.err);
        case Join =>
          var sendErr, receiveErr := sender.sendErr, receiver.err;
          var result := None;
          if sendErr.Some? && sendErr.value != EOF {
            result := sendErr;
          } else if receiveErr != EOF {
            result := Some(receiveErr);
          }
          receiver := Returned(receiveErr, result);
      }
    }

    /** The context times out. */
    method Expire()
      requires Enabled(Snapshot(), Deadline)
      modifies this
      ensures Snapshot() == Step(old(Snapshot()), Deadline)
    {
      cancelled, expired := true, true;
    }

    /** Any schedule. */
    method Execute(acts: seq<Action>)
      requires Runs(Snapshot(), acts)
      modifies this
      ensures Snapshot() == After(old(Snapshot()), acts)
    {
      for k := 0 to |acts|
        invariant Runs(Snapshot(), acts[k..])
        invariant After(old(Snapshot()), acts) == After(Snapshot(), acts[k..])
      {
        hide Step, Enabled;
        assert acts[k..][1..] == acts[k + 1..];
        match acts[k] {
          case Deadline => Expire();
          case Receive(_) => StepReceiver(acts[k]);
          case Handle(_) => StepReceiver(acts[k]);
          case CancelByReceiver => StepReceiver(acts[k]);
          case Join => StepReceiver(acts[k]);
          case _ => StepSender(acts[k]);
        }
      }
    }
  }

  // ---- Where requests come from and responses go

  datatype Fetched = Request(msg: Msg) | Ended(err: Err)

  /** streamIOBenchmark. */
  class StreamIOBenchmark {
    var streamRequestsIdx: nat
    const streamRequests: seq<Msg>
    var streamResponses: seq<Msg>

    ghost predicate Valid()
      reads this
    {
      streamRequestsIdx <= |streamRequests|
    }

    constructor (streamRequests: seq<Msg>)
      ensures Valid() && this.streamRequests == streamRequests && streamRequestsIdx == 0 && streamResponses == []
    {
      this.streamRequests, streamRequestsIdx, streamResponses := streamRequests, 0, [];
    }

    method NextRequest() returns (r: Fetched)
      requires Valid()
      modifies this`streamRequestsIdx
      ensures Valid()
      ensures r == if old(streamRequestsIdx) < |streamRequests| then Request(streamRequests[old(streamRequestsIdx)])
                   else Ended(EOF)
      ensures streamRequestsIdx == old(streamRequestsIdx) + if r.Request? then 1 else 0
    {
      if |streamRequests| == streamRequestsIdx { return Ended(EOF); }
      var req := streamRequests[streamRequestsIdx];
      streamRequestsIdx := streamRequestsIdx + 1;
      return Request(req);
    }

    method HandleResponse(res: Msg)
      modifies this`streamResponses
      ensures streamResponses == old(streamResponses) + [res]
    {
      streamResponses := streamResponses + [res];
    }
  }

  /** streamIOInitializer, over a reader of messages that ends with tail. printable gives the error,
      if any, of turning a response into text. */
  class StreamIOInitializer {
    var eofReached: bool
    var streamRequests: seq<Msg>
    const messages: seq<Msg>
    const tail: Raw
    var position: nat
    const printable: Msg -> Option<Raw>
    var printed: seq<Msg>

    ghost predicate Valid()
      reads this
    {
      && position <= |messages| && streamRequests == messages[..position]
      && (eofReached ==> position == |messages| && tail == RawEOF)
    }

    constructor (messages: seq<Msg>, tail: Raw, printable: Msg -> Option<Raw>)
      ensures Valid() && this.messages == messages && this.tail == tail && this.printable == printable
      ensures position == 0 && !eofReached && printed == []
    {
      this.messages, this.tail, this.printable := messages, tail, printable;
      eofReached, streamRequests, position, printed := false, [], 0, [];
    }

    /** The reader: NextBody. */
    method NextBody() returns (r: Arrival)
      requires position <= |messages|
      modifies this`position
      ensures r == if old(position) < |messages| then Message(messages[old(position)]) else Broken(tail)
      ensures position == old(position) + if r.Message? then 1 else 0
    {
      if position == |messages| { return Broken(tail); }
      r := Message(messages[position]);
      position := position + 1;
    }

    method NextRequest() returns (r: Fetched)
      requires Valid()
      modifies this`eofReached, this`streamRequests, this`position
      ensures Valid()
      ensures r == if old(position) < |messages| then Request(messages[old(position)])
                   else Ended(if tail == RawEOF then EOF else Failure(Reading, tail))
      ensures position == old(position) + if r.Request? then 1 else 0
      ensures eofReached <==> old(eofReached) || r == Ended(EOF)
    {
      if eofReached { return Ended(EOF); }
      var next := NextBody();
      match next {
        case Broken(RawEOF) =>
          eofReached := true;
          r := Ended(EOF);
        case Broken(err) => r := Ended(Wrapped(Reading, err));
        case Message(msg) =>
          streamRequests := streamRequests + [msg];
          r := Request(msg);
      }
    }

    method HandleResponse(body: Msg) returns (err: Option<Err>)
      modifies this`printed
      ensures err == if printable(body).Some? then Some(Wrapped(Handling, printable(body).value)) else None
      ensures printed == if err.None? then old(printed) + [body] else old(printed)
    {
      match printable(body)
      case Some(r) => err := Some(Wrapped(Handling, r));
      case None =>
        printed := printed + [body];
        err := None;
    }

    /** However many requests were read before, all messages of the input are returned, in order and
        once each; or, when the input does not end with EOF, the error. */
    method AllRequests() returns (r: Option<seq<Msg>>, err: Err)
      requires Valid()
      modifies this`eofReached, this`streamRequests, this`position
      ensures Valid()
      ensures tail == RawEOF ==> r == Some(messages)
      ensures tail != RawEOF ==> r == None && err == Failure(Reading, tail)
    {
      err := EOF;
      while !eofReached
        invariant Valid()
        decreases |messages| - position, !eofReached
      {
        var next := NextRequest();
        if next.Ended? && next.err != EOF { return None, next.err; }
      }
      assert messages[..|messages|] == messages;
      r := Some(streamRequests);
    }
  }

  // ---- Client and server streaming

  /** How many of n sends succeed before one fails; sends gives the outcome of each. */
  function Delivered(sends: nat -> Option<Raw>, n: nat): (m: nat)
    ensures m <= n && (forall k: nat | k < m :: sends(k).None?) && (m < n ==> sends(m).Some?)
  {
    if n == 0 then 0
    else
      var m := Delivered(sends, n - 1);
      if m == n - 1 && sends(m).None? then n else m
  }

  lemma DeliveredIs(sends: nat -> Option<Raw>, n: nat, m: nat)
    requires m <= n && (forall k: nat | k < m :: sends(k).None?) && (m < n ==> sends(m).Some?)
    ensures Delivered(sends, n) == m
  {
  }

  /** Requests are sent in order until one fails. The send side is closed exactly if the loop ended
      with EOF: that of the input, or that of a send, and then not all was sent. */
  method MakeClientStream(io: StreamIOInitializer, sends: nat -> Option<Raw>, closeFails: Option<Raw>, reply: Arrival)
    returns (result: Option<Err>, sent: seq<Msg>, closes: nat)
    requires io.Valid()
    modifies io
    ensures io.Valid()
    ensures var rest := old(io.messages[io.position..]);
            var m := Delivered(sends, |rest|);
            var end := if m < |rest| then sends(m).value else io.tail;
            && sent == rest[..m] && closes == (if end == RawEOF then 1 else 0)
            && result ==
                 if end != RawEOF then Some(Failure(if m < |rest| then Sending else Reading, end))
                 else if closeFails.Some? then Some(Failure(Closing, closeFails.value))
                 else if reply.Broken? then Some(if reply.err == RawEOF then EOF else Failure(Receiving, reply.err))
                 else if io.printable(reply.msg).Some? then Some(Failure(Handling, io.printable(reply.msg).value))
                 else None
    ensures io.printed == old(io.printed) + if result.None? then [reply.msg] else []
  {
    var err: Option<Err> := None;
    sent, closes := [], 0;
    ghost var start := io.position;
    ghost var rest := io.messages[start..];
    while err.None?
      invariant io.Valid() && io.printed == old(io.printed)
      invariant start <= io.position
      invariant |sent| <= |rest| && sent == rest[..|sent|] && forall k: nat | k < |sent| :: sends(k).None?
      invariant err.None? ==> io.position == start + |sent|
      invariant err.Some? ==>
        || (|sent| < |rest| && sends(|sent|).Some? && err.value == Passed(Sending, sends(|sent|).value))
        || (|sent| == |rest| && err.value == Passed(Reading, io.tail))
      decreases err.None?, |io.messages| - io.position
    {
      var next := io.NextRequest();
      if next.Ended? {
        err := Some(next.err);
        break;
      }
      match sends(|sent|) {
        case Some(r) => err := Some(Passed(Sending, r));
        case None => sent := sent + [next.msg];
      }
    }
    DeliveredIs(sends, |rest|, |sent|);
    if err.value == EOF {
      closes := 1;
      err := if closeFails.Some? then Some(Wrapped(Closing, closeFails.value)) else None;
    }
    if err.Some? { return err, sent, closes; }
    match reply {
      case Broken(r) => return Some(Passed(Receiving, r)), sent, closes;
      case Message(m) => result := io.HandleResponse(m);
    }
  }

  /** How many responses are printed before one cannot be. */
  function Printed(replies: seq<Msg>, printable: Msg -> Option<Raw>): (m: nat)
    ensures m <= |replies|
    ensures forall k | 0 <= k < m :: printable(replies[k]).None?
    ensures m < |replies| ==> printable(replies[m]).Some?
  {
    if replies == [] then 0
    else
      var m := Printed(replies[..|replies| - 1], printable);
      if m == |replies| - 1 && printable(replies[m]).None? then |replies| else m
  }

  lemma PrintedIs(replies: seq<Msg>, printable: Msg -> Option<Raw>, m: nat)
    requires m <= |replies| && (forall k | 0 <= k < m :: printable(replies[k]).None?)
    requires m < |replies| ==> printable(replies[m]).Some?
    ensures Printed(replies, printable) == m
  {
  }

  /** The receive loop of a server stream, with EOF turned into success. */
  method PrintReplies(io: StreamIOInitializer, replies: seq<Msg>, ending: Raw) returns (result: Option<Err>)
    modifies io`printed
    ensures var m := Printed(replies, io.printable);
            && io.printed == old(io.printed) + replies[..m]
            && result ==
                 if m < |replies| then Some(Failure(Handling, io.printable(replies[m]).value))
                 else if ending != RawEOF then Some(Failure(Receiving, ending))
                 else None
  {
    var err: Option<Err> := None;
    var k := 0;
    while err.None?
      invariant 0 <= k <= |replies|
      invariant io.printed == old(io.printed) + replies[..k]
      invariant forall i | 0 <= i < k :: io.printable(replies[i]).None?
      invariant err.Some? ==>
        || (k < |replies| && io.printable(replies[k]).Some?
             && err.value == Failure(Handling, io.printable(replies[k]).value))
        || (k == |replies| && err.value == Passed(Receiving, ending))
      decreases err.None?, |replies| - k
    {
      if k == |replies| {
        err := Some(Passed(Receiving, ending));
        break;
      }
      err := io.HandleResponse(replies[k]);
      if err.None? { k := k + 1; }
    }
    PrintedIs(replies, io.printable, k);
    result := if err == Some(EOF) then None else err;
  }

  /** At most one request is sent, an empty one if the input is empty, and only once the input is
      known to hold no more; the server sends replies and then ending. */
  method MakeServerStream(io: StreamIOInitializer, sendFails: Option<Raw>, closeFails: Option<Raw>,
                          replies: seq<Msg>, ending: Raw)
    returns (result: Option<Err>, sends: seq<Option<Msg>>)
    requires io.Valid()
    modifies io
    ensures io.Valid()
    ensures var rest := old(io.messages[io.position..]);
            var refused := |rest| >= 2 || io.tail != RawEOF;
            sends == if refused then [] else [if rest == [] then None else Some(rest[0])]
    ensures var rest := old(io.messages[io.position..]);
            var reached := sends != [] && sendFails.None? && closeFails.None?;
            var m := Printed(replies, io.printable);
            && io.printed == old(io.printed) + (if reached then replies[..m] else [])
            && result ==
                 if |rest| >= 2 then Some(Failure(Surplus, RawEOF))
                 else if io.tail != RawEOF then Some(Failure(Reading, io.tail))
                 else if sendFails.Some? then
                   Some(if sendFails.value == RawEOF then EOF else Failure(Sending, sendFails.value))
                 else if closeFails.Some? then Some(Failure(Closing, closeFails.value))
                 else if m < |replies| then Some(Failure(Handling, io.printable(replies[m]).value))
                 else if ending != RawEOF then Some(Failure(Receiving, ending))
                 else None
  {
    sends := [];
    var req := None;
    var first := io.NextRequest();
    if first.Ended? && first.err != EOF { return Some(first.err), sends; }
    if first.Request? {
      req := Some(first.msg);
      var second := io.NextRequest();
      if second.Request? { return Some(Failure(Surplus, RawEOF)), sends; }
      if second.err != EOF { return Some(second.err), sends; }
    }
    sends := [req];
    if sendFails.Some? { return Some(Passed(Sending, sendFails.value)), sends; }
    if closeFails.Some? { return Some(Wrapped(Closing, closeFails.value)), sends; }
    result := PrintReplies(io, replies, ending);
  }

  /** Warm-up and benchmark together: whatever a warm-up has read of the input, every call of the
      benchmark sends all of it. */
  method BenchmarkRequests(messages: seq<Msg>, tail: Raw, printable: Msg -> Option<Raw>, warmup: nat)
    returns (requests: Option<seq<Msg>>)
    ensures tail == RawEOF ==> requests == Some(messages)
    ensures tail != RawEOF ==> requests == None
  {
    var reader := new StreamIOInitializer(messages, tail, printable);
    for i := 0 to warmup
      invariant fresh(reader) && reader.Valid()
    {
      var _ := reader.NextRequest();
    }
    var err;
    requests, err := reader.AllRequests();
  }

  // ---- Messages a benchmark reports

  /** The cursor, reported as the number of messages sent, is that of a StreamIOBenchmark; it exceeds
      the successful sends by at most one, so a stream that ends well reports exactly what it sent,
      and one that was cut short by EOF one message too many. */
  lemma ReportedMessages(requests: seq<Msg>, acts: seq<Action>)
    requires Runs(Start(requests, RawEOF), acts)
    ensures var s := After(Start(requests, RawEOF), acts);
            s.receiver.Returned? && s.receiver.result == None ==>
              && |s.sent| <= s.cursor <= |s.sent| + 1
              && (s.cursor == |s.sent| <==> s.closes == 1)
              && (s.cursor == |s.sent| ==> s.sent == requests)
  {
    hide Runs, After;
    SendsInOrder(requests, RawEOF, acts);
    NilResult(requests, RawEOF, acts);
  }
  /** It happens: the only send meets EOF, the stream ends well, and one message is reported that was
      never sent. */
  lemma LostMessage(request: Msg)
    ensures var acts := [Fetch, Send(Some(RawEOF)), Receive(Broken(RawEOF)), CancelByReceiver, Join];
            && Runs(Start([request], RawEOF), acts)
            && var s := After(Start([request], RawEOF), acts);
               s.receiver == Returned(EOF, None) && s.cursor == 1 && s.sent == [] && s.closes == 0
  {
    var s := Start([request], RawEOF);
    var t := Step(Step(s, Fetch), Send(Some(RawEOF)));
    TwoSteps(Step(t, Receive(Broken(RawEOF))), CancelByReceiver, Join);
    StepThen(t, Receive(Broken(RawEOF)), [CancelByReceiver, Join]);
    StepThen(Step(s, Fetch), Send(Some(RawEOF)), [Receive(Broken(RawEOF)), CancelByReceiver, Join]);
    StepThen(s, Fetch, [Send(Some(RawEOF)), Receive(Broken(RawEOF)), CancelByReceiver, Join]);
    hide Runs, After;
  }

  lemma StepThen(s: State, a: Action, acts: seq<Action>)
    requires Enabled(s, a) && Runs(Step(s, a), acts)
    ensures Runs(s, [a] + acts) && After(s, [a] + acts) == After(Step(s, a), acts)
  {
    hide Step, Enabled;
    assert ([a] + acts)[0] == a && ([a] + acts)[1..] == acts;
  }
}
