/**
 What every run of the callback state machine keeps: callbacks are consumed in the order in which
 their commands were accepted, the i-th reply goes to the i-th command, NULL replies come last and
 only during the one teardown, and no output byte is lost or reordered.
 */
module AsyncRuns {
  import opened Options
  import opened Bytes
  import opened Resp
  import opened Commands
  import opened AsyncMachine

  function Takers(consumed: seq<Delivery>): seq<Callback> {
    seq(|consumed|, i requires 0 <= i < |consumed| => consumed[i].cb)
  }

  /** How many callbacks were given a reply of the server. */
  function Answered(consumed: seq<Delivery>): (n: nat)
    ensures n <= |consumed|
  {
    if consumed == [] then 0
    else Answered(consumed[..|consumed| - 1]) + (if consumed[|consumed| - 1].reply.Some? then 1 else 0)
  }

  /** The first callbacks were given the first replies of the stream, the others the NULL reply. */
  ghost predicate InOrder(consumed: seq<Delivery>, replies: seq<Reply>) {
    var n := Answered(consumed);
    && n <= |replies|
    && forall i :: 0 <= i < |consumed| ==>
         consumed[i].reply == if i < n then Some(replies[i]) else None
  }

  // ---------------------------------------------------------------- what callbacks ask for

  ghost predicate AsksToFree(actions: seq<Action>) {
    exists i :: 0 <= i < |actions| && actions[i].Free?
  }

  ghost predicate AsksToDisconnect(actions: seq<Action>) {
    exists i :: 0 <= i < |actions| && actions[i].Disconnect?
  }

  /** The commands issued before the first call that closes the context. */
  function Requested(actions: seq<Action>): seq<Request> {
    if actions == [] || !actions[0].Issue? then []
    else [Request(actions[0].cb, actions[0].argv)] + Requested(actions[1..])
  }

  /** The context after these calls of a callback. */
  ghost function Asked(s: State, actions: seq<Action>): State {
    var more := if Closing(s) then [] else Requested(actions);
    s.(disconnecting := s.disconnecting || AsksToDisconnect(actions),
       freeing := s.freeing || AsksToFree(actions),
       pending := s.pending + Callbacks(more), obuf := s.obuf + Output(more), accepted := s.accepted + more)
  }

  lemma AsksFirst(actions: seq<Action>)
    requires actions != []
    ensures AsksToFree(actions) <==> actions[0].Free? || AsksToFree(actions[1..])
    ensures AsksToDisconnect(actions) <==> actions[0].Disconnect? || AsksToDisconnect(actions[1..])
  {
    var others := actions[1..];
    assert forall i :: 0 <= i < |others| ==> others[i] == actions[i + 1];
    assert forall i :: 0 < i < |actions| ==> actions[i] == others[i - 1];
  }

  lemma AskedNothing(s: State)
    ensures Asked(s, []) == s
  {
    assert Callbacks([]) == [] && Wires([]) == [] && Output([]) == [];
    assert s.pending + [] == s.pending && s.obuf + [] == s.obuf && s.accepted + [] == s.accepted;
  }

  lemma AskedFirst(s: State, actions: seq<Action>)
    requires s.inCallback && actions != []
    ensures Asked(s, actions) == Asked(Act(s, actions[0]), actions[1..])
  {
    hide Wire, Callbacks, Output, Concat, AsksToFree, AsksToDisconnect;
    var a, others := actions[0], actions[1..];
    AsksFirst(actions);
    if a.Issue? && !Closing(s) {
      var g, more := Request(a.cb, a.argv), Requested(others);
      OneRequest(a.cb, a.argv);
      CallbacksAppend([g], more);
      assert s.pending + [a.cb] + Callbacks(more) == s.pending + Callbacks([g] + more);
      assert s.obuf + Wire(a.argv) + Output(more) == s.obuf + Output([g] + more);
      assert s.accepted + [g] + more == s.accepted + ([g] + more);
    }
  }

  /** The calls of a callback change the context in exactly this way. */
  lemma {:induction false} ActsIsAsked(s: State, actions: seq<Action>)
    requires s.inCallback
    ensures Acts(s, actions) == Asked(s, actions)
    decreases |actions|
  {
    hide Wire, Asked, Requested, AsksToFree, AsksToDisconnect;
    if actions == [] {
      AskedNothing(s);
    } else {
      OneActQueues(s, actions[0]);
      ActsIsAsked(Act(s, actions[0]), actions[1..]);
      AskedFirst(s, actions);
    }
  }

  /** What a callback calls when it is given a reply. */
  function ActionsOn(cb: Callback, reply: Option<Reply>): seq<Action> {
    if cb.Callback? then cb.body(reply) else []
  }

  /** The callback asks for the context to be freed when it is given this reply. */
  ghost predicate FreesOn(cb: Callback, reply: Reply) {
    AsksToFree(ActionsOn(cb, Some(reply)))
  }

  lemma DeliveredIsAsked(s: State, reply: Option<Reply>)
    requires s.pending != [] && !s.inCallback
    ensures Delivered(s, reply) == Asked(Shifted(s, reply), ActionsOn(s.pending[0], reply))
  {
    hide Wire, Callbacks, Output, Requested, AsksToFree, AsksToDisconnect;
    var cb := s.pending[0];
    if cb.Callback? {
      ActsIsAsked(Shifted(s, reply).(inCallback := true), cb.body(reply));
    } else {
      AskedNothing(Shifted(s, reply));
    }
  }

  // ---------------------------------------------------------------- the invariant

  ghost predicate Core(s: State) {
    && Callbacks(s.accepted) == Takers(s.consumed) + s.pending
    && Output(s.accepted) == s.written + s.obuf
    && InOrder(s.consumed, Decode(s.fed).replies)
    && Answered(s.consumed) <= s.taken <= |Decode(s.fed).replies|
  }

  /** Every reply that has arrived has been given to its command, and the stream may go on. */
  ghost predicate CaughtUp(s: State) {
    s.taken == |Decode(s.fed).replies| && Decode(s.fed).ending.Waiting?
  }

  /** A reply and a command waiting for it go together, unless the last callback that was given a reply
      asked for the context to be freed. */
  ghost predicate NoneWithheld(s: State) {
    var n, replies := Answered(s.consumed), Decode(s.fed).replies;
    n < |replies| && n < |s.accepted| ==> 0 < n && FreesOn(s.consumed[n - 1].cb, replies[n - 1])
  }

  ghost predicate Inv(s: State) {
    && Quiet(s) && Core(s) && NoneWithheld(s) && (!Gone(s) ==> CaughtUp(s))
    && s.teardowns <= 1
    && s.notified == (if s.teardowns == 1 && s.connected then [s.freeing || !s.err] else [])
    && (s.aborted ==> s.teardowns == 0)
    && (s.teardowns == 0 ==> Answered(s.consumed) == |s.consumed|)
    && (s.teardowns > 0 ==> s.pending == [] && Closing(s))
    && (!Gone(s) ==> s.taken == |s.consumed|)
  }

  // ---------------------------------------------------------------- one callback

  lemma OnlyQueuesKeepsCore(s: State, r: State)
    requires Core(s) && OnlyQueues(s, r)
    ensures Core(r)
  {
    hide Wire, Callbacks, Output, Decode, Answered;
    var more :| Queued(s, r, more);
    CallbacksAppend(s.accepted, more);
    assert Takers(s.consumed) + (s.pending + Callbacks(more)) == Takers(s.consumed) + s.pending + Callbacks(more);
    assert s.written + (s.obuf + Output(more)) == s.written + s.obuf + Output(more);
  }

  lemma AnsweredSnoc(consumed: seq<Delivery>, d: Delivery)
    ensures Answered(consumed + [d]) == Answered(consumed) + (if d.reply.Some? then 1 else 0)
    ensures Takers(consumed + [d]) == Takers(consumed) + [d.cb]
  {
    assert (consumed + [d])[..|consumed|] == consumed;
  }

  /** The next callback gets the next reply of the stream, or a NULL reply. */
  lemma DeliveredKeepsCore(s: State, reply: Option<Reply>)
    requires Core(s) && s.pending != [] && !s.inCallback
    requires reply.Some? ==>
               var n := |s.consumed|;
               Answered(s.consumed) == n < s.taken && reply == Some(Decode(s.fed).replies[n])
    ensures Core(Delivered(s, reply))
    ensures Answered(Delivered(s, reply).consumed) == Answered(s.consumed) + (if reply.Some? then 1 else 0)
  {
    hide Wire, Callbacks, Output, Decode, Answered;
    var d := Delivery(s.pending[0], reply);
    var s' := s.(pending := s.pending[1..], consumed := s.consumed + [d]);
    AnsweredSnoc(s.consumed, d);
    assert s.pending == [s.pending[0]] + s.pending[1..];
    assert Takers(s.consumed) + s.pending == Takers(s'.consumed) + s'.pending;
    assert Core(s');
    OnlyQueuesKeepsCore(s', Delivered(s, reply));
  }

  // ---------------------------------------------------------------- teardown

  function Nulls(pending: seq<Callback>): seq<Delivery> {
    if pending == [] then [] else [Delivery(pending[0], None)] + Nulls(pending[1..])
  }

  /** Teardown gives every pending callback exactly one NULL reply, in order. */
  lemma {:induction false} DrainedGivesNulls(s: State)
    requires Closing(s) && !s.inCallback
    ensures Drained(s).consumed == s.consumed + Nulls(s.pending)
    decreases |s.pending|
  {
    hide Wire;
    if s.pending != [] {
      var s' := Delivered(s, None);
      DrainedGivesNulls(s');
      assert s'.pending == s.pending[1..];
    }
  }

  lemma {:induction false} DrainedKeepsCore(s: State)
    requires Core(s) && Closing(s) && !s.inCallback
    ensures Core(Drained(s))
    ensures Answered(Drained(s).consumed) == Answered(s.consumed)
    decreases |s.pending|
  {
    hide Wire, Callbacks, Output, Decode, Answered, Core;
    if s.pending != [] {
      DeliveredKeepsCore(s, None);
      DrainedKeepsCore(Delivered(s, None));
    }
  }

  /** A teardown from a context that still lives leaves nothing pending and nothing to be done twice. */
  lemma TornDownKeepsInv(s: State)
    requires Core(s) && NoneWithheld(s) && Closing(s) && !s.inCallback && !Gone(s) && s.notified == []
    ensures Inv(TornDown(s))
  {
    hide Wire, Callbacks, Output, Decode, Answered, FreesOn;
    DrainedKeepsCore(s);
    DrainedGivesNulls(s);
  }

  lemma HangupKeepsInv(s: State)
    requires Core(s) && NoneWithheld(s) && (s.err || s.disconnecting) && !s.inCallback && !Gone(s) && s.notified == []
    requires Answered(s.consumed) == |s.consumed|
    ensures Inv(Hangup(s))
  {
    hide Wire, Callbacks, Output, Decode, Answered, Drained, FreesOn;
    if s.err {
      TornDownKeepsInv(s.(disconnecting := true));
    } else if s.pending == [] {
      TornDownKeepsInv(s);
    }
  }

  // ---------------------------------------------------------------- events

  /** What holds while replies are being processed. */
  ghost predicate Live(s: State) {
    && Core(s) && !s.inCallback && !Gone(s) && !s.freeing && s.notified == []
    && Answered(s.consumed) == |s.consumed| == s.taken
  }

  /** With nothing pending every command has been answered. */
  lemma NothingPending(s: State)
    requires Live(s) && s.pending == []
    ensures Answered(s.consumed) == |s.accepted|
  {
    hide Answered, Decode;
    assert |Callbacks(s.accepted)| == |s.accepted| && |Takers(s.consumed)| == |s.consumed|;
  }

  /** A callback that was given a reply is the only one who can have asked for the context to be freed. */
  lemma FreedByTheLast(s: State, reply: Reply)
    requires s.pending != [] && !s.inCallback && !s.freeing
    ensures var r := Delivered(s, Some(reply));
            r.freeing ==>
              && r.consumed == s.consumed + [Delivery(s.pending[0], Some(reply))]
              && FreesOn(s.pending[0], reply)
  {
    hide Wire, AsksToFree, AsksToDisconnect, Requested;
    DeliveredIsAsked(s, Some(reply));
  }

  lemma {:induction false} ProcessedKeepsInv(s: State)
    requires Live(s)
    ensures Inv(Processed(s))
    decreases |Decode(s.fed).replies| - s.taken
  {
    hide Wire, Callbacks, Output, Decode, Answered, Drained, TornDown, Hangup, FreesOn;
    var d := Decode(s.fed);
    if s.taken == |d.replies| {
      if d.ending.Failed? {
        HangupKeepsInv(s.(err := true));
      } else if s.disconnecting && s.obuf == [] {
        HangupKeepsInv(s);
      }
    } else {
      var reply := d.replies[s.taken];
      var s' := s.(taken := s.taken + 1);
      if s'.pending == [] {
        NothingPending(s);
        if reply.Error? {
          HangupKeepsInv(s'.(err := true));
        }
      } else {
        DeliveredKeepsCore(s', Some(reply));
        var r := Delivered(s', Some(reply));
        FreedByTheLast(s', reply);
        if r.freeing {
          TornDownKeepsInv(r);
        } else {
          ProcessedKeepsInv(r);
        }
      }
    }
  }

  lemma FedKeepsCore(s: State, data: bytes)
    requires Core(s)
    ensures Core(s.(fed := s.fed + data))
  {
    hide Wire, Callbacks, Output, Answered, Decode;
    DecodeExtend(s.fed, data);
  }

  lemma ReadEventKeepsInv(s: State, read: ReadResult)
    requires Live(s) && CaughtUp(s)
    ensures Inv(ReadEvent(s, read))
  {
    hide Wire, Callbacks, Output, Answered, Decode, Processed, Hangup;
    if s.err {
      HangupKeepsInv(s);
    } else {
      match read
      case Data(data) =>
        DecodeExtend(s.fed, data);
        FedKeepsCore(s, data);
        ProcessedKeepsInv(s.(fed := s.fed + data));
      case ReadAgain => ProcessedKeepsInv(s);
      case _ => HangupKeepsInv(s.(err := true));
    }
  }

  lemma WriteEventKeepsInv(s: State, write: WriteResult)
    requires Live(s) && CaughtUp(s)
    ensures Inv(WriteEvent(s, write))
  {
    hide Wire, Callbacks, Output, Answered, Decode, Hangup;
    if s.err {
      HangupKeepsInv(s);
    } else if s.obuf != [] {
      match write
      case Wrote(n) =>
        var k := if n <= |s.obuf| then n else |s.obuf|;
        assert s.written + s.obuf[..k] + s.obuf[k..] == s.written + s.obuf;
      case WriteAgain =>
      case WriteError => HangupKeepsInv(s.(err := true));
    }
  }

  lemma ConnectedKeepsInv(s: State, status: ConnectStatus, greetings: seq<Request>)
    requires Live(s) && CaughtUp(s) && !s.connected
    ensures var r := Connected(s, status, greetings);
            Inv(r) && (r.connected && !Gone(r) ==> Live(r) && CaughtUp(r))
  {
    hide Wire, Callbacks, Output, Answered, Decode, Drained;
    match status
    case ConnOk =>
      GreetedQueues(s.(connected := true), greetings);
      FreeingOnlyInside(s.(connected := true), greetings);
      OnlyQueuesKeepsCore(s.(connected := true), Connected(s, status, greetings));
    case InProgress =>
    case ConnFailed =>
      GreetedQueues(s.(err := true), greetings);
      OnlyQueuesKeepsCore(s.(err := true), Greeted(s.(err := true), greetings));
      HangupKeepsInv(Greeted(s.(err := true), greetings));
  }

  lemma CallKeepsInv(s: State, a: Action)
    requires Live(s) && CaughtUp(s)
    ensures Inv(Act(s, a))
  {
    hide Wire, Answered, Decode, Drained;
    match a
    case Issue(cb, argv) =>
      GreetedQueues(s, [Request(cb, argv)]);
      assert Greeted(Issued(s, cb, argv), []) == Issued(s, cb, argv);
      assert [Request(cb, argv)][1..] == [];
      OnlyQueuesKeepsCore(s, Issued(s, cb, argv));
    case Disconnect =>
      if s.pending == [] {
        HangupKeepsInv(s.(disconnecting := true));
      }
    case Free => TornDownKeepsInv(s.(freeing := true));
  }

  lemma StepKeepsInv(s: State, e: Event)
    requires Inv(s)
    ensures Inv(Step(s, e))
  {
    hide Wire, Callbacks, Output, Answered, Decode, Hangup, Processed;
    if !Gone(s) {
      match e
      case Call(a) => CallKeepsInv(s, a);
      case Readable(status, greetings, read) =>
        var s' := if s.connected then s else Connected(s, status, greetings);
        if !s.connected {
          ConnectedKeepsInv(s, status, greetings);
        }
        if s'.connected && !Gone(s') {
          ReadEventKeepsInv(s', read);
        }
      case Writable(status, greetings, write) =>
        var s' := if s.connected then s else Connected(s, status, greetings);
        if !s.connected {
          ConnectedKeepsInv(s, status, greetings);
        }
        if s'.connected && !Gone(s') {
          WriteEventKeepsInv(s', write);
        }
    }
  }

  // ---------------------------------------------------------------- runs

  /** The state after any finite sequence of calls and events. */
  ghost function Run(events: seq<Event>): (s: State)
    ensures Inv(s)
  {
    if events == [] then
      assert Takers([]) == [];
      INIT
    else
      var s' := Run(events[..|events| - 1]);
      StepKeepsInv(s', events[|events| - 1]);
      Step(s', events[|events| - 1])
  }

  lemma RunIsQuiet(events: seq<Event>)
    ensures Quiet(Run(events))
  {
    hide Run;
    assert Inv(Run(events));
  }

  lemma CallbacksSplit(requests: seq<Request>, first: seq<Callback>, others: seq<Callback>)
    requires Callbacks(requests) == first + others
    ensures |requests| == |first| + |others|
    ensures forall i :: 0 <= i < |first| ==> first[i] == requests[i].cb
    ensures forall i :: 0 <= i < |others| ==> others[i] == requests[|first| + i].cb
  {
    assert forall i :: 0 <= i < |requests| ==> Callbacks(requests)[i] == requests[i].cb;
    assert forall i :: 0 <= i < |first| ==> first[i] == (first + others)[i];
    assert forall i :: 0 <= i < |others| ==> others[i] == (first + others)[|first| + i];
  }

  lemma AcceptedSplit(s: State)
    requires Callbacks(s.accepted) == Takers(s.consumed) + s.pending
    ensures |s.accepted| == |s.consumed| + |s.pending|
    ensures forall i :: 0 <= i < |s.consumed| ==> s.consumed[i].cb == s.accepted[i].cb
    ensures forall i :: 0 <= i < |s.pending| ==> s.pending[i] == s.accepted[|s.consumed| + i].cb
  {
    hide Callbacks;
    CallbacksSplit(s.accepted, Takers(s.consumed), s.pending);
    assert forall i :: 0 <= i < |s.consumed| ==> Takers(s.consumed)[i] == s.consumed[i].cb;
  }

  /** Callbacks are consumed in the order of their commands, and the pending ones are those of the
      remaining commands. */
  lemma ConsumedInOrder(events: seq<Event>)
    ensures var s := Run(events);
            && |s.accepted| == |s.consumed| + |s.pending|
            && (forall i :: 0 <= i < |s.consumed| ==> s.consumed[i].cb == s.accepted[i].cb)
            && (forall i :: 0 <= i < |s.pending| ==> s.pending[i] == s.accepted[|s.consumed| + i].cb)
  {
    hide Wire, Callbacks, Takers, Output, Run, InOrder, NoneWithheld, CaughtUp, Quiet;
    AcceptedSplit(Run(events));
  }

  /** The i-th command gets the i-th reply or a NULL reply; NULL replies come last, and only from the
      teardown. */
  lemma RepliesInOrder(events: seq<Event>)
    ensures var s := Run(events); var replies := Decode(s.fed).replies;
            && (forall i :: 0 <= i < |s.consumed| && s.consumed[i].reply.Some? ==>
                  i < |replies| && s.consumed[i].reply.value == replies[i])
            && (forall i, j :: 0 <= i < j < |s.consumed| && s.consumed[i].reply.None? ==> s.consumed[j].reply.None?)
            && (forall i :: 0 <= i < |s.consumed| && s.consumed[i].reply.None? ==> s.teardowns == 1)
  {
    hide Wire, Callbacks, Output, Run, Decode, Answered;
    assert InOrder(Run(events).consumed, Decode(Run(events).fed).replies);
  }

  /** No reply is held back. A context that lives has given every reply that has arrived to its command,
      and in every run the replies that were handed out are as many as there are both replies and
      commands, except when the last of them made its callback free the context. */
  lemma RepliesDelivered(events: seq<Event>)
    ensures var s := Run(events); var replies := Decode(s.fed).replies;
            && (!Gone(s) ==>
                  && |s.consumed| == |replies| && Decode(s.fed).ending.Waiting?
                  && forall i :: 0 <= i < |replies| ==> s.consumed[i].reply == Some(replies[i]))
            && var n := Answered(s.consumed);
               && n <= |replies| && n <= |s.consumed| <= |s.accepted|
               && (n < |replies| && n < |s.accepted| ==> 0 < n && FreesOn(s.accepted[n - 1].cb, replies[n - 1]))
  {
    hide Wire, Callbacks, Output, Run, Decode, Answered, FreesOn;
    var s := Run(events);
    ConsumedInOrder(events);
    assert InOrder(s.consumed, Decode(s.fed).replies) && NoneWithheld(s);
  }

  /** Once the context is freed, every accepted command has had its callback exactly once. */
  lemma FreedMeansAllConsumed(events: seq<Event>)
    ensures var s := Run(events);
            s.teardowns > 0 ==>
              && s.teardowns == 1
              && |s.consumed| == |s.accepted|
              && (forall i :: 0 <= i < |s.accepted| ==> s.consumed[i].cb == s.accepted[i].cb)
  {
    hide Wire, Callbacks, Output, Run, Decode, Answered;
    ConsumedInOrder(events);
  }

  /** The disconnect callback runs exactly once, when a connected context is torn down: with REDIS_OK when
      the user freed the context or no error occurred, with REDIS_ERR otherwise. */
  lemma DisconnectNotified(events: seq<Event>)
    ensures var s := Run(events);
            s.notified == if s.teardowns > 0 && s.connected then [s.freeing || !s.err] else []
  {
    hide Run;
    assert Inv(Run(events));
  }

  /** The bytes written and the bytes still buffered are the accepted commands, one after the other. */
  lemma OutputConserved(events: seq<Event>)
    ensures var s := Run(events); s.written + s.obuf == Output(s.accepted)
  {
    hide Run;
    assert Inv(Run(events));
  }

  // ---------------------------------------------------------------- extending a run

  lemma RunEmpty()
    ensures Run([]) == INIT
  {
  }

  lemma RunSnoc(events: seq<Event>, e: Event) returns (s: State)
    ensures s == Run(events + [e]) == Step(Run(events), e)
  {
    hide Wire, Decode;
    s := Run(events + [e]);
    assert (events + [e])[..|events|] == events;
   }
}
