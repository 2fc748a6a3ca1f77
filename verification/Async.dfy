/**
 The callback state machine of hiredis/async.c as functions on states: what every API call and every
 event of the event loop does, for contexts that issue regular commands only.
 */
module AsyncMachine {
  import opened Options
  import opened Bytes
  import opened Resp
  import opened Commands
  import opened ArgumentScanner

  type Argv = argv: seq<bytes> | IsRegular(argv) witness [[]]

  /** What a reply callback does is any list of API calls, which may depend on the reply it gets; None
      is the NULL reply. */
  datatype Callback = NullCallback(privdata: int) | Callback(privdata: int, body: Option<Reply> -> seq<Action>)

  datatype Action = Issue(cb: Callback, argv: Argv) | Disconnect | Free

  /** A command that was accepted, and a callback that was taken off the list with what it was given. */
  datatype Request = Request(cb: Callback, argv: Argv)
  datatype Delivery = Delivery(cb: Callback, reply: Option<Reply>)

  /** `notified` lists the calls of the disconnect callback (true for REDIS_OK), `teardowns` counts how
      often the context was torn down, and `aborted` is a failed assert. The replies that the reader
      holds are those of the bytes read (`fed`) behind the first `taken`. */
  datatype State = State(
    connected: bool, disconnecting: bool, freeing: bool, inCallback: bool, err: bool,
    pending: seq<Callback>, obuf: bytes, fed: bytes, taken: nat,
    accepted: seq<Request>, consumed: seq<Delivery>, written: bytes,
    notified: seq<bool>, teardowns: nat, aborted: bool)

  const INIT := State(false, false, false, false, false, [], [], [], 0, [], [], [], [], 0, false)

  /** The context has been freed or the process has died. */
  predicate Gone(s: State) {
    s.teardowns > 0 || s.aborted
  }

  /** No command is accepted any more. */
  predicate Closing(s: State) {
    s.disconnecting || s.freeing
  }

  // ---------------------------------------------------------------- API calls

  /** What API calls from inside a callback can change. */
  ghost predicate OnlyQueues(s: State, r: State) {
    && r == s.(disconnecting := r.disconnecting, freeing := r.freeing, pending := r.pending,
               obuf := r.obuf, accepted := r.accepted)
    && (s.disconnecting ==> r.disconnecting) && (s.freeing ==> r.freeing)
    && (exists more :: Queued(s, r, more))
    && (Closing(s) ==> r.pending == s.pending && r.obuf == s.obuf && r.accepted == s.accepted)
  }

  ghost predicate Queued(s: State, r: State, more: seq<Request>) {
    && r.accepted == s.accepted + more
    && r.pending == s.pending + Callbacks(more)
    && r.obuf == s.obuf + Output(more)
  }

  function Callbacks(requests: seq<Request>): seq<Callback> {
    seq(|requests|, i requires 0 <= i < |requests| => requests[i].cb)
  }

  function Wires(requests: seq<Request>): seq<bytes> {
    seq(|requests|, i requires 0 <= i < |requests| => Wire(requests[i].argv))
  }

  function Output(requests: seq<Request>): bytes {
    Concat(Wires(requests))
  }

  lemma OneRequest(cb: Callback, argv: Argv)
    ensures Callbacks([Request(cb, argv)]) == [cb] && Output([Request(cb, argv)]) == Wire(argv)
  {
    hide Wire;
    assert Wires([Request(cb, argv)]) == [Wire(argv)];
    assert Concat([Wire(argv)]) == Wire(argv) + Concat([]);
  }

  lemma CallbacksAppend(a: seq<Request>, b: seq<Request>)
    ensures Callbacks(a + b) == Callbacks(a) + Callbacks(b)
    ensures Output(a + b) == Output(a) + Output(b)
  {
    hide Wire, Concat;
    assert Wires(a + b) == Wires(a) + Wires(b);
    ConcatAppend(Wires(a), Wires(b));
  }

  /** __redisAsyncCommand for a regular command; refused commands leave no trace. */
  function Issued(s: State, cb: Callback, argv: Argv): State {
    if Closing(s) then s
    else s.(pending := s.pending + [cb], obuf := s.obuf + Wire(argv), accepted := s.accepted + [Request(cb, argv)])
  }

  /** redisAsyncFree. */
  function Freed(s: State): (r: State)
    ensures s.inCallback ==> r == s.(freeing := true)
    decreases if s.inCallback then 0 else 1, if s.inCallback then 0 else |s.pending|, 4
  {
    var s' := s.(freeing := true);
    if s'.inCallback then s' else TornDown(s')
  }

  /** redisAsyncDisconnect. */
  function Disconnected(s: State): (r: State)
    ensures s.inCallback ==> r == s.(disconnecting := true)
    decreases if s.inCallback then 0 else 1, if s.inCallback then 0 else |s.pending|, 4
  {
    var s' := s.(disconnecting := true);
    if s'.inCallback || s'.pending != [] then s' else Hangup(s')
  }

  function Act(s: State, a: Action): (r: State)
    decreases if s.inCallback then 0 else 1, if s.inCallback then 0 else |s.pending|, 5
  {
    match a
    case Issue(cb, argv) => Issued(s, cb, argv)
    case Disconnect => Disconnected(s)
    case Free => Freed(s)
  }

  /** The calls made by a callback, one after the other. */
  function Acts(s: State, actions: seq<Action>): (r: State)
    requires s.inCallback
    ensures OnlyQueues(s, r)
    decreases 0, 0, 6, |actions|
  {
    if actions == [] then
      assert Queued(s, s, []);
      s
    else
      var s' := Act(s, actions[0]);
      OneActQueues(s, actions[0]);
      var r := Acts(s', actions[1..]);
      QueuesTransitive(s, s', r);
      r
  }

  lemma OneActQueues(s: State, a: Action)
    requires s.inCallback
    ensures OnlyQueues(s, Act(s, a)) && Act(s, a).inCallback
    decreases 0, 0, 6, 0
  {
    hide Wire;
    var r := Act(s, a);
    if a.Issue? && !Closing(s) {
      var more := [Request(a.cb, a.argv)];
      OneRequest(a.cb, a.argv);
      assert Queued(s, r, more);
    } else {
      assert Queued(s, r, []);
    }
  }

  lemma QueuesTransitive(s: State, t: State, r: State)
    requires OnlyQueues(s, t) && OnlyQueues(t, r)
    ensures OnlyQueues(s, r)
  {
    hide Wire, Callbacks, Output;
    var more1 :| Queued(s, t, more1);
    var more2 :| Queued(t, r, more2);
    CallbacksAppend(more1, more2);
    assert r.accepted == s.accepted + (more1 + more2);
    assert r.obuf == s.obuf + Output(more1 + more2);
    assert Queued(s, r, more1 + more2);
  }

  /** __redisShiftCallback: the first pending callback is consumed. */
  function Shifted(s: State, reply: Option<Reply>): State
    requires s.pending != []
  {
    s.(pending := s.pending[1..], consumed := s.consumed + [Delivery(s.pending[0], reply)])
  }

  /** __redisRunCallback. */
  function Called(s: State, cb: Callback, reply: Option<Reply>): (r: State)
    requires !s.inCallback
    ensures OnlyQueues(s, r)
    decreases 1, |s.pending|, 0
  {
    if cb.NullCallback? then
      assert Queued(s, s, []);
      s
    else
      var r := Acts(s.(inCallback := true), cb.body(reply));
      QueuesOutside(s, r);
      r.(inCallback := false)
  }

  /** The first pending callback gets `reply`. */
  function Delivered(s: State, reply: Option<Reply>): (r: State)
    requires s.pending != [] && !s.inCallback
    ensures OnlyQueues(Shifted(s, reply), r)
    decreases 1, |s.pending| - 1, 1
  {
    Called(Shifted(s, reply), s.pending[0], reply)
  }

  /** A closing context consumes one callback and accepts nothing. */
  lemma DeliveredWhileClosing(s: State, reply: Option<Reply>)
    requires s.pending != [] && !s.inCallback && Closing(s)
    ensures var r := Delivered(s, reply); r.pending == s.pending[1..] && Closing(r) && !r.inCallback
    decreases 1, |s.pending|, 0
  {
  }

  lemma QueuesOutside(s: State, r: State)
    requires !s.inCallback && OnlyQueues(s.(inCallback := true), r)
    ensures OnlyQueues(s, r.(inCallback := false))
  {
    var more :| Queued(s.(inCallback := true), r, more);
    assert Queued(s, r.(inCallback := false), more);
  }

  /** The teardown loop: every pending callback gets the NULL reply. It ends because a closing context
      accepts no commands. */
  function Drained(s: State): (r: State)
    requires Closing(s) && !s.inCallback
    ensures r.pending == [] && !r.inCallback && Closing(r)
    ensures r == s.(disconnecting := r.disconnecting, freeing := r.freeing, pending := [], consumed := r.consumed)
    ensures s.freeing ==> r.freeing
    decreases 1, |s.pending|, 1
  {
    if s.pending == [] then s else Drained(Delivered(s, None))
  }

  /** __redisAsyncFree. */
  function TornDown(s: State): (r: State)
    requires Closing(s) && !s.inCallback
    ensures Closing(r) && (s.freeing ==> r.freeing)
    ensures r == s.(disconnecting := r.disconnecting, freeing := r.freeing, pending := [],
                    consumed := r.consumed, teardowns := s.teardowns + 1, notified := r.notified)
    ensures r.notified == s.notified + (if s.connected then [r.freeing || !s.err] else [])
    decreases 1, |s.pending|, 2
  {
    var r := Drained(s);
    r.(teardowns := r.teardowns + 1,
       notified := if r.connected then r.notified + [r.freeing || !r.err] else r.notified)
  }

  /** __redisAsyncDisconnect: a clean one must not find pending callbacks. */
  function Hangup(s: State): (r: State)
    requires (s.err || s.disconnecting) && !s.inCallback
    ensures Gone(r) && !r.inCallback && r.taken == s.taken && r.fed == s.fed
    decreases 1, |s.pending|, 3
  {
    if s.err then TornDown(s.(disconnecting := true))
    else if s.pending != [] then s.(aborted := true)
    else TornDown(s)
  }

  // ---------------------------------------------------------------- events

  /** What redisProcessCallbacks does with one reply, and whether it goes on to the next. */
  function Dispatched(s: State, reply: Reply): (r: (State, bool))
    requires !s.inCallback && !s.freeing
    ensures r.1 ==> r.0.fed == s.fed && r.0.taken == s.taken && !r.0.inCallback && !r.0.freeing
  {
    if s.pending == [] then
      if reply.Error? then (Hangup(s.(err := true)), false) else (s.(aborted := true), false)
    else
      var r := Delivered(s, Some(reply));
      if r.freeing then (TornDown(r), false) else (r, true)
  }

  /** What redisProcessCallbacks does when there is no reply. */
  function Starved(s: State, ending: Ending): State
    requires !s.inCallback
  {
    if ending.Failed? then Hangup(s.(err := true))
    else if s.disconnecting && s.obuf == [] then Hangup(s)
    else s
  }

  /** redisProcessCallbacks. */
  function Processed(s: State): (r: State)
    requires !s.inCallback && !s.freeing && s.taken <= |Decode(s.fed).replies|
    decreases |Decode(s.fed).replies| - s.taken
  {
    var d := Decode(s.fed);
    if s.taken == |d.replies| then Starved(s, d.ending)
    else
      var (r, again) := Dispatched(s.(taken := s.taken + 1), d.replies[s.taken]);
      if again then Processed(r) else r
  }

  datatype ConnectStatus = ConnOk | InProgress | ConnFailed

  datatype ReadResult = Data(data: bytes) | Eof | ReadError | ReadAgain
  datatype WriteResult = Wrote(n: nat) | WriteError | WriteAgain

  /** __redisAsyncHandleConnect when the context is not connected; `greetings` are the commands that the
      connect callback issues, which are accepted even when it is told that connecting failed. A connect
      still in progress leaves its error behind. */
  function Connected(s: State, status: ConnectStatus, greetings: seq<Request>): State
    requires !s.inCallback && !s.connected
  {
    match status
    case ConnOk => Greeted(s.(connected := true), greetings)
    case InProgress => s.(err := true)
    case ConnFailed => Hangup(Greeted(s.(err := true), greetings))
  }

  function Greeted(s: State, greetings: seq<Request>): (r: State)
    ensures r.err == s.err && r.inCallback == s.inCallback && r.connected == s.connected
    decreases |greetings|
  {
    if greetings == [] then s else Greeted(Issued(s, greetings[0].cb, greetings[0].argv), greetings[1..])
  }

  /** redisBufferRead and what follows it. */
  function ReadEvent(s: State, read: ReadResult): State
    requires !s.inCallback && !s.freeing && s.taken <= |Decode(s.fed).replies|
  {
    if s.err then Hangup(s)
    else
      match read
      case Data(data) =>
        DecodeExtend(s.fed, data);
        Processed(s.(fed := s.fed + data))
      case ReadAgain => Processed(s)
      case _ => Hangup(s.(err := true))
  }

  /** redisBufferWrite and what follows it. */
  function WriteEvent(s: State, write: WriteResult): State
    requires !s.inCallback
  {
    if s.err then Hangup(s)
    else if s.obuf == [] then s
    else
      match write
      case Wrote(n) =>
        var k := if n <= |s.obuf| then n else |s.obuf|;
        s.(written := s.written + s.obuf[..k], obuf := s.obuf[k..])
      case WriteAgain => s
      case WriteError => Hangup(s.(err := true))
  }

  /** What happens to a context from outside its callbacks. The readable and the writable event carry
      the outcome of the connection test, which matters while the context is not connected. */
  datatype Event =
    | Call(action: Action)
    | Readable(status: ConnectStatus, greetings: seq<Request>, read: ReadResult)
    | Writable(status: ConnectStatus, greetings: seq<Request>, write: WriteResult)

  /** What holds between events. */
  ghost predicate Quiet(s: State) {
    && !s.inCallback
    && s.taken <= |Decode(s.fed).replies|
    && (!Gone(s) ==> !s.freeing)
  }

  function Step(s: State, e: Event): State
    requires Quiet(s)
  {
    if Gone(s) then s
    else
      match e
      case Call(a) => Act(s, a)
      case Readable(status, greetings, read) =>
        var s' := if s.connected then s else Connected(s, status, greetings);
        ConnectedIsQuiet(s, status, greetings);
        if !s'.connected || Gone(s') then s' else ReadEvent(s', read)
      case Writable(status, greetings, write) =>
        var s' := if s.connected then s else Connected(s, status, greetings);
        ConnectedIsQuiet(s, status, greetings);
        if !s'.connected || Gone(s') then s' else WriteEvent(s', write)
  }

  lemma {:induction false} GreetedQueues(s: State, greetings: seq<Request>)
    ensures OnlyQueues(s, Greeted(s, greetings))
    decreases |greetings|
  {
    hide Wire;
    if greetings == [] {
      assert Queued(s, s, []);
    } else {
      var g := greetings[0];
      var s' := Issued(s, g.cb, g.argv);
      OneRequest(g.cb, g.argv);
      assert Queued(s, s', if Closing(s) then [] else [g]);
      GreetedQueues(s', greetings[1..]);
      QueuesTransitive(s, s', Greeted(s', greetings[1..]));
    }
  }

  lemma ConnectedIsQuiet(s: State, status: ConnectStatus, greetings: seq<Request>)
    requires Quiet(s) && !Gone(s)
    ensures var r := if s.connected then s else Connected(s, status, greetings);
            r.connected && !Gone(r) ==> Quiet(r)
  {
    if !s.connected && status.ConnOk? {
      GreetedQueues(s.(connected := true), greetings);
      FreeingOnlyInside(s.(connected := true), greetings);
    }
  }

  lemma {:induction false} FreeingOnlyInside(s: State, greetings: seq<Request>)
    ensures Greeted(s, greetings).freeing == s.freeing
    decreases |greetings|
  {
    if greetings != [] {
      FreeingOnlyInside(Issued(s, greetings[0].cb, greetings[0].argv), greetings[1..]);
    }
  }
}
