/**
 How every event ends a context or leaves it: when it lives on and with what, when it is torn down, cleanly, in
 error or because the user freed it, and when an assertion fails.
 */
module AsyncEndings {
  import opened Options
  import opened Bytes
  import opened Resp
  import opened Commands
  import opened AsyncMachine
  import opened AsyncRuns

  // ---------------------------------------------------------------- the replies at hand

  /** What can be foreseen of the list of callbacks: those that are taken off it while these replies are
      processed, followed by those that stay; the commands issued meanwhile; and whether some callback
      closes the context. */
  datatype Outlook = Outlook(queue: seq<Callback>, requested: seq<Request>, closing: bool)

  ghost function Foreseen(pending: seq<Callback>, closing: bool, replies: seq<Reply>): Outlook
    decreases |replies|
  {
    if pending == [] || replies == [] then Outlook(pending, [], closing)
    else
      var actions := ActionsOn(pending[0], Some(replies[0]));
      var more := if closing then [] else Requested(actions);
      var o := Foreseen(pending[1..] + Callbacks(more),
                        closing || AsksToDisconnect(actions) || AsksToFree(actions), replies[1..]);
      Outlook([pending[0]] + o.queue, more + o.requested, o.closing)
  }

  /** The list of a closing context does not grow. */
  lemma {:induction false} ForeseenWhenClosing(pending: seq<Callback>, replies: seq<Reply>)
    ensures Foreseen(pending, true, replies) == Outlook(pending, [], true)
    decreases |replies|
  {
    if pending != [] && replies != [] {
      assert pending[1..] + Callbacks([]) == pending[1..];
      ForeseenWhenClosing(pending[1..], replies[1..]);
    }
  }

  /** A callback that will get one of the replies asks for the context to be freed. */
  ghost predicate WillFree(queue: seq<Callback>, replies: seq<Reply>) {
    exists i :: 0 <= i < |queue| && i < |replies| && FreesOn(queue[i], replies[i])
  }

  lemma NobodyFrees(queue: seq<Callback>, replies: seq<Reply>)
    requires queue == [] || replies == []
    ensures !WillFree(queue, replies)
  {
  }

  lemma WillFreeFirst(queue: seq<Callback>, replies: seq<Reply>)
    requires queue != [] && replies != []
    ensures WillFree(queue, replies) <==> FreesOn(queue[0], replies[0]) || WillFree(queue[1..], replies[1..])
  {
    hide FreesOn;
    var q, t := queue[1..], replies[1..];
    if WillFree(queue, replies) {
      var i :| 0 <= i < |queue| && i < |replies| && FreesOn(queue[i], replies[i]);
      assert i > 0 ==> FreesOn(q[i - 1], t[i - 1]);
    }
    if WillFree(q, t) {
      var i :| 0 <= i < |q| && i < |t| && FreesOn(q[i], t[i]);
      assert FreesOn(queue[i + 1], replies[i + 1]);
    }
  }

  /** The replies at hand. */
  function AtHand(s: State): seq<Reply>
    requires s.taken <= |Decode(s.fed).replies|
  {
    Decode(s.fed).replies[s.taken..]
  }

  /** What can become of a context. */
  datatype Fate = GoesOn | Aborts | EndsCleanly | EndsInError | EndsFreed

  ghost predicate Meets(r: State, fate: Fate) {
    match fate
    case GoesOn => !Gone(r)
    case Aborts => r.aborted
    case EndsCleanly => r.teardowns == 1 && !r.aborted && !r.err && !r.freeing
    case EndsInError => r.teardowns == 1 && !r.aborted && r.err
    case EndsFreed => r.teardowns == 1 && !r.aborted && r.freeing
  }

  /** What these replies lead to, when the callbacks in `queue` get them one by one, the stream then waits or has
      `failed`, and the context wants to disconnect or not. */
  ghost function FateWith(queue: seq<Callback>, replies: seq<Reply>, failed: bool, disconnects: bool): Fate {
    if WillFree(queue, replies) then EndsFreed
    else if |replies| > |queue| then (if replies[|queue|].Error? then EndsInError else Aborts)
    else if failed then EndsInError
    else if disconnects then (if |replies| < |queue| then Aborts else EndsCleanly)
    else GoesOn
  }

  /** What processing the replies at hand leads to. */
  ghost function FateOfReplies(s: State): Fate
    requires s.taken <= |Decode(s.fed).replies|
  {
    var o := Foreseen(s.pending, s.disconnecting, AtHand(s));
    FateWith(o.queue, AtHand(s), Decode(s.fed).ending.Failed?, o.closing && s.obuf + Output(o.requested) == [])
  }

  /** The commands `more` have been accepted, and nothing has been read or written. */
  ghost predicate Adds(s: State, r: State, more: seq<Request>) {
    && r.accepted == s.accepted + more && r.obuf == s.obuf + Output(more)
    && r.written == s.written && r.fed == s.fed && r.connected == s.connected
  }

  /** What is left of a context that has processed the replies at hand and goes on. */
  ghost predicate WentOn(s: State, r: State)
    requires s.taken <= |Decode(s.fed).replies|
  {
    var replies, o := AtHand(s), Foreseen(s.pending, s.disconnecting, AtHand(s));
    && Adds(s, r, o.requested)
    && |replies| <= |o.queue| && r.pending == o.queue[|replies|..]
    && r.disconnecting == o.closing && r.freeing == s.freeing && r.err == s.err
  }

  /** What becomes of a context when the replies at hand are processed. */
  ghost predicate Outcome(s: State, r: State)
    requires s.taken <= |Decode(s.fed).replies|
  {
    && Meets(r, FateOfReplies(s))
    && Adds(s, r, Foreseen(s.pending, s.disconnecting, AtHand(s)).requested)
    && (FateOfReplies(s).GoesOn? ==> WentOn(s, r))
  }

  lemma OutputOfNothing(obuf: bytes)
    ensures obuf + Output([]) == obuf
  {
    assert Wires([]) == [];
  }

  lemma AddsNothing(s: State, r: State)
    requires r.accepted == s.accepted && r.obuf == s.obuf
    requires r.written == s.written && r.fed == s.fed && r.connected == s.connected
    ensures Adds(s, r, [])
  {
    OutputOfNothing(s.obuf);
    assert s.accepted + [] == s.accepted;
  }

  lemma AliveIsLive(s: State)
    requires Live(s)
    ensures !s.inCallback && !s.freeing && s.taken <= |Decode(s.fed).replies|
  {
    hide Decode, Answered, Callbacks, Output;
  }

  lemma CleanHangup(s: State)
    requires s.disconnecting && s.pending == [] && !s.err && !s.inCallback && !s.freeing && !Gone(s)
    ensures Meets(Hangup(s), EndsCleanly) && Hangup(s).accepted == s.accepted && Hangup(s).connected == s.connected
  {
    assert Hangup(s) == TornDown(s) && Drained(s) == s;
  }

  lemma ErrorHangup(s: State)
    requires s.err && !s.inCallback && !Gone(s)
    ensures Meets(Hangup(s), EndsInError) && Hangup(s).accepted == s.accepted && Hangup(s).connected == s.connected
  {
    hide Drained;
  }

  /** No reply is left. */
  lemma OutcomeWithoutReply(s: State)
    requires Live(s) && !s.err && AtHand(s) == []
    ensures Outcome(s, Processed(s))
  {
    hide Wire, Callbacks, Output, Answered, Decode, FreesOn, WillFree, Adds, Core, Drained;
    AliveIsLive(s);
    assert s.taken == |Decode(s.fed).replies| && Processed(s) == Starved(s, Decode(s.fed).ending);
    OutputOfNothing(s.obuf);
    NobodyFrees(s.pending, AtHand(s));
    AddsNothing(s, Processed(s));
    assert s.pending[0..] == s.pending;
    if s.disconnecting && s.pending == [] {
      CleanHangup(s);
    }
  }

  /** A reply for which there is no callback. */
  lemma OutcomeWithoutCallback(s: State)
    requires Live(s) && !s.err && AtHand(s) != [] && s.pending == []
    ensures Outcome(s, Processed(s))
  {
    hide Wire, Callbacks, Output, Answered, Decode, FreesOn, WillFree, Drained, Adds, Core;
    AliveIsLive(s);
    var s' := s.(taken := s.taken + 1);
    assert Processed(s) == Dispatched(s', AtHand(s)[0]).0;
    NobodyFrees(s.pending, AtHand(s));
    AddsNothing(s, Processed(s));
  }

  lemma RequestsAppend(s: State, more: seq<Request>, later: seq<Request>)
    ensures s.obuf + Output(more) + Output(later) == s.obuf + Output(more + later)
    ensures s.accepted + more + later == s.accepted + (more + later)
  {
    hide Output;
    CallbacksAppend(more, later);
  }

  /** One delivery seen by the outlook. */
  lemma AskedOutlook(s: State, reply: Reply, replies: seq<Reply>) returns (o': Outlook)
    requires s.pending != [] && !s.inCallback && !s.freeing
    ensures var r := Asked(Shifted(s, Some(reply)), ActionsOn(s.pending[0], Some(reply)));
            var o := Foreseen(s.pending, s.disconnecting, [reply] + replies);
            && (r.freeing <==> FreesOn(s.pending[0], reply))
            && o' == Foreseen(r.pending, r.disconnecting || r.freeing, replies)
            && o.queue == [s.pending[0]] + o'.queue && o.closing == o'.closing
            && r.accepted + o'.requested == s.accepted + o.requested
            && r.obuf + Output(o'.requested) == s.obuf + Output(o.requested)
  {
    hide Wire, Callbacks, Output, AsksToFree, AsksToDisconnect, Requested;
    var actions := ActionsOn(s.pending[0], Some(reply));
    var more := if s.disconnecting then [] else Requested(actions);
    assert ([reply] + replies)[1..] == replies;
    o' := Foreseen(s.pending[1..] + Callbacks(more),
                   s.disconnecting || AsksToDisconnect(actions) || AsksToFree(actions), replies);
    RequestsAppend(s, more, o'.requested);
  }

  /** The next callback gets the next reply. */
  lemma NextDelivery(s: State) returns (r: State)
    requires Live(s) && !s.err && AtHand(s) != [] && s.pending != []
    ensures r.fed == s.fed && r.taken == s.taken + 1 && !r.inCallback && !Gone(r) && !r.err
    ensures r.written == s.written && r.connected == s.connected
    ensures !r.freeing ==> Live(r)
    ensures Processed(s) == if r.freeing then TornDown(r) else Processed(r)
    ensures r == Asked(Shifted(s.(taken := s.taken + 1), Some(AtHand(s)[0])),
                       ActionsOn(s.pending[0], Some(AtHand(s)[0])))
  {
    hide Wire, Callbacks, Output, Answered, Decode, Asked, TornDown;
    var s' := s.(taken := s.taken + 1);
    r := Delivered(s', Some(AtHand(s)[0]));
    DeliveredIsAsked(s', Some(AtHand(s)[0]));
    DeliveredKeepsCore(s', Some(AtHand(s)[0]));
  }

  /** A callback that does not free the context leaves the fate to the others. */
  lemma FateNext(cb: Callback, reply: Reply, queue: seq<Callback>, replies: seq<Reply>, failed: bool,
                 disconnects: bool)
    requires !FreesOn(cb, reply)
    ensures var fate := FateWith([cb] + queue, [reply] + replies, failed, disconnects);
            && fate == FateWith(queue, replies, failed, disconnects)
            && (fate.GoesOn? ==> |replies| <= |queue| && ([cb] + queue)[|replies| + 1..] == queue[|replies|..])
  {
    hide FreesOn, WillFree;
    assert ([cb] + queue)[1..] == queue && ([reply] + replies)[1..] == replies;
    WillFreeFirst([cb] + queue, [reply] + replies);
  }

  /** A callback that frees the context decides the fate. */
  lemma FreedFate(cb: Callback, reply: Reply, queue: seq<Callback>, replies: seq<Reply>, failed: bool,
                  disconnects: bool)
    requires FreesOn(cb, reply)
    ensures FateWith([cb] + queue, [reply] + replies, failed, disconnects) == EndsFreed
  {
    hide FreesOn, WillFree;
    WillFreeFirst([cb] + queue, [reply] + replies);
  }

  lemma FreedNow(s: State)
    requires s.freeing && !s.inCallback && !Gone(s)
    ensures Meets(TornDown(s), EndsFreed) && Adds(s, TornDown(s), [])
  {
    hide Drained, Output;
    AddsNothing(s, TornDown(s));
  }

  /** The next reply, and what the context is after its callback. */
  lemma OutcomeNext(s: State) returns (r: State)
    requires Live(s) && !s.err && AtHand(s) != [] && s.pending != []
    ensures r.fed == s.fed && r.taken == s.taken + 1
    ensures r.freeing ==> Outcome(s, Processed(s))
    ensures !r.freeing ==>
              && Live(r) && !r.err && Processed(s) == Processed(r)
              && (Outcome(r, Processed(r)) ==> Outcome(s, Processed(s)))
  {
    hide Wire, Callbacks, Output, Decode, FreesOn, Asked, WillFree, Foreseen, Drained, Live, FateWith, TornDown;
    AliveIsLive(s);
    var replies := AtHand(s);
    r := NextDelivery(s);
    var o' := AskedOutlook(s.(taken := s.taken + 1), replies[0], replies[1..]);
    assert [replies[0]] + replies[1..] == replies && AtHand(r) == replies[1..];
    if r.freeing {
      FreedFate(s.pending[0], replies[0], o'.queue, replies[1..], Decode(s.fed).ending.Failed?,
                o'.closing && r.obuf + Output(o'.requested) == []);
      ForeseenWhenClosing(r.pending, replies[1..]);
      FreedNow(r);
    } else {
      FateNext(s.pending[0], replies[0], o'.queue, replies[1..], Decode(s.fed).ending.Failed?,
               o'.closing && r.obuf + Output(o'.requested) == []);
    }
  }

  lemma {:induction false} ProcessingOutcome(s: State)
    requires Live(s) && !s.err
    ensures Outcome(s, Processed(s))
    decreases |Decode(s.fed).replies| - s.taken
  {
    hide Wire, Decode, Processed, Outcome, Live;
    AliveIsLive(s);
    if AtHand(s) == [] {
      OutcomeWithoutReply(s);
    } else if s.pending == [] {
      OutcomeWithoutCallback(s);
    } else {
      var r := OutcomeNext(s);
      if !r.freeing {
        ProcessingOutcome(r);
      }
    }
  }

  // ---------------------------------------------------------------- failed assertions

  /** There are too few replies for the callbacks when the context wants to disconnect, or there is one
      more that is not an error. */
  ghost predicate Mismatched(queue: seq<Callback>, replies: seq<Reply>, disconnects: bool) {
    || (|replies| < |queue| && disconnects)
    || (|replies| > |queue| && !replies[|queue|].Error?)
  }

  /** Exactly when processing the replies at hand ends in a failed assertion, whatever the callbacks call. */
  lemma ProcessingAborts(s: State)
    requires Live(s) && !s.err && s.taken <= |Decode(s.fed).replies|
    ensures var replies, o := AtHand(s), Foreseen(s.pending, s.disconnecting, AtHand(s));
            Processed(s).aborted <==>
              && !WillFree(o.queue, replies)
              && Mismatched(o.queue, replies,
                            o.closing && s.obuf + Output(o.requested) == [] && Decode(s.fed).ending.Waiting?)
  {
    hide Wire, Decode, Processed, Live, WillFree, Foreseen, Output;
    AliveIsLive(s);
    ProcessingOutcome(s);
  }

  /** The case of a context that is disconnecting. The documentation promises that it goes on until the
      replies of all pending commands are read; the code does not look whether any are still to come. */
  lemma DisconnectAborts(s: State)
    requires Live(s) && s.disconnecting && !s.err
    ensures Processed(s).aborted <==>
              && !WillFree(s.pending, AtHand(s))
              && Mismatched(s.pending, AtHand(s), s.obuf == [] && Decode(s.fed).ending.Waiting?)
  {
    hide Wire, Callbacks, Output, Answered, Decode, WillFree, Processed;
    ForeseenWhenClosing(s.pending, AtHand(s));
    OutputOfNothing(s.obuf);
    ProcessingAborts(s);
  }

  // ---------------------------------------------------------------- every event

  /** The commands of the connect callback that are accepted. */
  function Heeded(s: State, greetings: seq<Request>): seq<Request> {
    if s.disconnecting then [] else greetings
  }

  ghost function Heard(s: State, greetings: seq<Request>): State {
    var more := Heeded(s, greetings);
    s.(pending := s.pending + Callbacks(more), obuf := s.obuf + Output(more), accepted := s.accepted + more)
  }

  /** The context once it is connected. */
  ghost function Ready(s: State, greetings: seq<Request>): State {
    if s.connected then s else Heard(s, greetings).(connected := true)
  }

  ghost function FateOfReading(s: State, read: ReadResult): Fate
    requires s.taken <= |Decode(s.fed).replies|
  {
    if s.err then EndsInError
    else
      match read
      case Data(data) =>
        DecodeExtend(s.fed, data);
        FateOfReplies(s.(fed := s.fed + data))
      case ReadAgain => FateOfReplies(s)
      case Eof => EndsInError
      case ReadError => EndsInError
  }

  ghost function FateOfWriting(s: State, write: WriteResult): Fate {
    if s.err || (write.WriteError? && s.obuf != []) then EndsInError else GoesOn
  }

  /** What an event makes of a living context. */
  ghost function FateOf(s: State, e: Event): Fate
    requires s.taken <= |Decode(s.fed).replies|
  {
    match e
    case Call(Issue(_, _)) => GoesOn
    case Call(Disconnect) => if s.pending != [] then GoesOn else if s.err then EndsInError else EndsCleanly
    case Call(Free) => EndsFreed
    case Readable(status, greetings, read) =>
      if !s.connected && status.InProgress? then GoesOn
      else if !s.connected && status.ConnFailed? then EndsInError
      else FateOfReading(Ready(s, greetings), read)
    case Writable(status, greetings, write) =>
      if !s.connected && status.InProgress? then GoesOn
      else if !s.connected && status.ConnFailed? then EndsInError
      else FateOfWriting(Ready(s, greetings), write)
  }

  ghost function AcceptedReading(s: State, read: ReadResult): seq<Request>
    requires s.taken <= |Decode(s.fed).replies|
  {
    match read
    case Data(data) =>
      DecodeExtend(s.fed, data);
      var s' := s.(fed := s.fed + data);
      if s.err then [] else Foreseen(s'.pending, s'.disconnecting, AtHand(s')).requested
    case ReadAgain => if s.err then [] else Foreseen(s.pending, s.disconnecting, AtHand(s)).requested
    case Eof => []
    case ReadError => []
  }

  /** The commands that are accepted while a living context handles an event. */
  ghost function AcceptedBy(s: State, e: Event): seq<Request>
    requires s.taken <= |Decode(s.fed).replies|
  {
    match e
    case Call(Issue(cb, argv)) => if s.disconnecting then [] else [Request(cb, argv)]
    case Call(Disconnect) => []
    case Call(Free) => []
    case Readable(status, greetings, read) =>
      if s.connected then AcceptedReading(s, read)
      else if status.InProgress? then []
      else Heeded(s, greetings) + if status.ConnOk? then AcceptedReading(Ready(s, greetings), read) else []
    case Writable(status, greetings, _) =>
      if s.connected || status.InProgress? then [] else Heeded(s, greetings)
  }

  ghost predicate WentOnReading(s: State, read: ReadResult, r: State)
    requires s.taken <= |Decode(s.fed).replies|
  {
    match read
    case Data(data) =>
      DecodeExtend(s.fed, data);
      WentOn(s.(fed := s.fed + data), r)
    case ReadAgain => WentOn(s, r)
    case Eof => false
    case ReadError => false
  }

  ghost predicate WentOnWriting(s: State, write: WriteResult, r: State) {
    match write
    case Wrote(n) =>
      var k := if n <= |s.obuf| then n else |s.obuf|;
      r == s.(written := s.written + s.obuf[..k], obuf := s.obuf[k..])
    case WriteAgain => r == s
    case WriteError => r == s && s.obuf == []
  }

  /** How an event changes a context that goes on. */
  ghost predicate Changes(s: State, e: Event, r: State)
    requires s.taken <= |Decode(s.fed).replies|
  {
    match e
    case Call(Issue(cb, argv)) =>
      r == if s.disconnecting then s
           else s.(pending := s.pending + [cb], obuf := s.obuf + Wire(argv),
                   accepted := s.accepted + [Request(cb, argv)])
    case Call(Disconnect) => r == s.(disconnecting := true)
    case Call(Free) => false
    case Readable(status, greetings, read) =>
      if !s.connected && status.InProgress? then r == s.(err := true)
      else WentOnReading(Ready(s, greetings), read, r)
    case Writable(status, greetings, write) =>
      if !s.connected && status.InProgress? then r == s.(err := true)
      else WentOnWriting(Ready(s, greetings), write, r)
  }

  lemma HeardFirst(s: State, g: Request, others: seq<Request>)
    requires !s.freeing
    ensures Heard(Issued(s, g.cb, g.argv), others) == Heard(s, [g] + others)
  {
    hide Wire, Output, Callbacks;
    OneRequest(g.cb, g.argv);
    CallbacksAppend([g], others);
    assert s.pending + [g.cb] + Callbacks(others) == s.pending + ([g.cb] + Callbacks(others));
    assert s.obuf + Wire(g.argv) + Output(others) == s.obuf + (Wire(g.argv) + Output(others));
    assert s.accepted + [g] + others == s.accepted + ([g] + others);
  }

  lemma HeardNothing(s: State)
    ensures Heard(s, []) == s
  {
    hide Wire;
    OutputOfNothing(s.obuf);
    assert s.accepted + [] == s.accepted && s.pending + Callbacks([]) == s.pending;
  }

  lemma {:induction false} GreetedIsHeard(s: State, greetings: seq<Request>)
    requires !s.freeing
    ensures Greeted(s, greetings) == Heard(s, greetings)
    decreases |greetings|
  {
    hide Wire, Heard;
    if greetings == [] {
      HeardNothing(s);
    } else {
      var g, others := greetings[0], greetings[1..];
      GreetedIsHeard(Issued(s, g.cb, g.argv), others);
      HeardFirst(s, g, others);
      assert greetings == [g] + others;
    }
  }

  /** What is known of a context that lives between events. */
  lemma AliveBetweenEvents(s: State)
    requires Inv(s) && !Gone(s)
    ensures Live(s) && CaughtUp(s) && s.taken <= |Decode(s.fed).replies|
  {
    hide Wire, Decode, Answered, Callbacks, Output;
  }

  lemma ReadFate(s: State, read: ReadResult)
    requires Live(s) && CaughtUp(s) && s.taken <= |Decode(s.fed).replies|
    ensures Meets(ReadEvent(s, read), FateOfReading(s, read))
    ensures FateOfReading(s, read).GoesOn? ==> WentOnReading(s, read, ReadEvent(s, read))
    ensures ReadEvent(s, read).accepted == s.accepted + AcceptedReading(s, read)
    ensures ReadEvent(s, read).connected == s.connected
  {
    hide Wire, Decode, Processed, Core, FateOfReplies, WentOn, Output, Foreseen, Drained;
    assert s.accepted + [] == s.accepted;
    if !s.err {
      match read
      case Data(data) =>
        DecodeExtend(s.fed, data);
        FedKeepsCore(s, data);
        ProcessingOutcome(s.(fed := s.fed + data));
      case ReadAgain => ProcessingOutcome(s);
      case Eof =>
      case ReadError =>
    }
  }

  lemma WriteFate(s: State, write: WriteResult)
    requires Live(s)
    ensures Meets(WriteEvent(s, write), FateOfWriting(s, write))
    ensures FateOfWriting(s, write).GoesOn? ==> WentOnWriting(s, write, WriteEvent(s, write))
    ensures WriteEvent(s, write).accepted == s.accepted && WriteEvent(s, write).connected == s.connected
  {
    hide Wire, Decode, Core, Drained, Output, Callbacks;
    assert s.obuf == [] ==> s.written + s.obuf[..0] == s.written && s.obuf[0..] == s.obuf;
  }

  lemma CallFate(s: State, a: Action)
    requires Live(s) && s.taken <= |Decode(s.fed).replies|
    ensures Meets(Act(s, a), FateOf(s, Call(a)))
    ensures FateOf(s, Call(a)).GoesOn? ==> Changes(s, Call(a), Act(s, a))
    ensures Act(s, a).accepted == s.accepted + AcceptedBy(s, Call(a)) && Act(s, a).connected == s.connected
  {
    hide Wire, Decode, Core, Drained, Output, Callbacks, Hangup;
    assert s.accepted + [] == s.accepted;
    if a.Disconnect? && s.pending == [] {
      if s.err {
        ErrorHangup(s.(disconnecting := true));
      } else {
        CleanHangup(s.(disconnecting := true));
      }
    }
  }

  lemma ConnectFate(s: State, status: ConnectStatus, greetings: seq<Request>)
    requires Live(s) && CaughtUp(s) && !s.connected
    ensures var r := Connected(s, status, greetings);
            match status
            case ConnOk => r == Ready(s, greetings) && Live(r) && CaughtUp(r)
            case InProgress => r == s.(err := true)
            case ConnFailed =>
              Meets(r, EndsInError) && r.accepted == s.accepted + Heeded(s, greetings) && !r.connected
  {
    hide Wire, Decode, Core, Greeted, Heard, Hangup;
    match status
    case ConnOk =>
      GreetedIsHeard(s.(connected := true), greetings);
      HeardWhenConnected(s, greetings);
      HeardLives(s.(connected := true), greetings);
      ConnectedKeepsInv(s, status, greetings);
    case InProgress =>
    case ConnFailed =>
      GreetedIsHeard(s.(err := true), greetings);
      HeardLives(s.(err := true), greetings);
      ErrorHangup(Greeted(s.(err := true), greetings));
  }

  lemma HeardWhenConnected(s: State, greetings: seq<Request>)
    ensures Heard(s.(connected := true), greetings) == Heard(s, greetings).(connected := true)
  {
  }

  lemma HeardLives(s: State, greetings: seq<Request>)
    ensures var r := Heard(s, greetings);
            && Gone(r) == Gone(s) && r.inCallback == s.inCallback && r.err == s.err && r.connected == s.connected
            && r.accepted == s.accepted + Heeded(s, greetings) && r.fed == s.fed && r.taken == s.taken
  {
  }

  lemma StepFate(s: State, e: Event)
    requires Inv(s) && !Gone(s) && s.taken <= |Decode(s.fed).replies|
    ensures Meets(Step(s, e), FateOf(s, e))
    ensures FateOf(s, e).GoesOn? ==> Changes(s, e, Step(s, e))
    ensures Step(s, e).accepted == s.accepted + AcceptedBy(s, e)
    ensures Step(s, e).connected <==> s.connected || (!e.Call? && e.status.ConnOk?)
  {
    hide Wire, Decode, Inv, Core, ReadEvent, WriteEvent, FateOfReading, FateOfWriting, WentOnReading,
      WentOnWriting, Act, Heard, Heeded, Connected, AcceptedReading;
    AliveBetweenEvents(s);
    assert s.accepted + [] == s.accepted;
    match e
    case Call(a) => CallFate(s, a);
    case Readable(status, greetings, read) =>
      if !s.connected {
        ConnectFate(s, status, greetings);
      }
      if s.connected || status.ConnOk? {
        ReadFate(Ready(s, greetings), read);
        HeardLives(s, greetings);
        assert s.accepted + Heeded(s, greetings) + AcceptedReading(Ready(s, greetings), read)
            == s.accepted + (Heeded(s, greetings) + AcceptedReading(Ready(s, greetings), read));
      } else {
        assert Heeded(s, greetings) + [] == Heeded(s, greetings);
      }
    case Writable(status, greetings, write) =>
      if !s.connected {
        ConnectFate(s, status, greetings);
      }
      if s.connected || status.ConnOk? {
        WriteFate(Ready(s, greetings), write);
        HeardLives(s, greetings);
      }
  }

  /** What every event makes of every context that lives. */
  lemma EventFate(events: seq<Event>, e: Event)
    ensures var s, r := Run(events), Run(events + [e]);
            && (Gone(s) ==> r == s)
            && (!Gone(s) ==>
                  && s.taken <= |Decode(s.fed).replies|
                  && Meets(r, FateOf(s, e)) && (FateOf(s, e).GoesOn? ==> Changes(s, e, r))
                  && r.accepted == s.accepted + AcceptedBy(s, e)
                  && (r.connected <==> s.connected || (!e.Call? && e.status.ConnOk?)))
  {
    hide Run, Decode, FateOf, Changes, AcceptedBy, Act, ReadEvent, WriteEvent, Inv, Meets;
    var r := RunSnoc(events, e);
    var s := Run(events);
    if !Gone(s) {
      AliveBetweenEvents(s);
      StepFate(s, e);
    }
  }

  lemma NotIdle(s: State, r: State)
    requires s.taken <= |Decode(s.fed).replies| && FateOfReplies(s).GoesOn? && WentOn(s, r)
    ensures !(r.disconnecting && r.obuf == [])
  {
    hide Decode, Foreseen, Output, WillFree;
  }

  lemma NotIdleAfterReading(s: State, read: ReadResult, r: State)
    requires s.taken <= |Decode(s.fed).replies| && (read.Data? || read.ReadAgain?)
    requires FateOfReading(s, read).GoesOn? && WentOnReading(s, read, r)
    ensures !(r.disconnecting && r.obuf == [])
  {
    hide Decode, FateOfReplies, WentOn;
    match read
    case Data(data) =>
      DecodeExtend(s.fed, data);
      NotIdle(s.(fed := s.fed + data), r);
    case ReadAgain => NotIdle(s, r);
  }

  /** A disconnect is not forgotten: a connected context that lives on after reading is not both disconnecting
      and without output. */
  lemma NoIdleDisconnect(events: seq<Event>, status: ConnectStatus, greetings: seq<Request>, read: ReadResult)
    requires read.Data? || read.ReadAgain?
    ensures var r := Run(events + [Readable(status, greetings, read)]);
            !Gone(r) && r.connected ==> !(r.disconnecting && r.obuf == [])
  {
    hide Run, Decode, Wire, FateOfReading, WentOnReading, Heard, AcceptedBy;
    var s, r := Run(events), Run(events + [Readable(status, greetings, read)]);
    EventFate(events, Readable(status, greetings, read));
    if !Gone(s) && !Gone(r) && r.connected {
      HeardLives(s, greetings);
      NotIdleAfterReading(Ready(s, greetings), read, r);
    }
  }

  // ---------------------------------------------------------------- three runs

  /** A command is written. */
  function SentCommand(cb: Callback, argv: Argv): seq<Event> {
    [Call(Issue(cb, argv)), Writable(ConnOk, [], Wrote(|Wire(argv)|))]
  }

  function Sent(cb: Callback, argv: Argv): State {
    INIT.(connected := true, pending := [cb], accepted := [Request(cb, argv)], written := Wire(argv))
  }

  lemma SentRun(cb: Callback, argv: Argv)
    ensures Run(SentCommand(cb, argv)) == Sent(cb, argv)
  {
    hide Decode, Wire, Run, Callbacks, Output, Step, Inv, Quiet;
    var events := SentCommand(cb, argv);
    RunEmpty();
    SentSteps(cb, argv);
    var s1 := RunSnoc([], events[0]);
    var s2 := RunSnoc([events[0]], events[1]);
    assert [] + [events[0]] == [events[0]] && [events[0]] + [events[1]] == events;
  }

  lemma SentSteps(cb: Callback, argv: Argv)
    ensures var events := SentCommand(cb, argv);
            var s1 := Step(INIT, events[0]);
            Quiet(s1) && Step(s1, events[1]) == Sent(cb, argv) && Quiet(Sent(cb, argv))
  {
    hide Decode, Wire, Greeted;
    DecodeEmpty();
    var events := SentCommand(cb, argv);
    var s1 := INIT.(pending := [cb], obuf := Wire(argv), accepted := [Request(cb, argv)]);
    assert Step(INIT, events[0]) == s1;
    NoGreetings(s1.(connected := true));
    assert Step(s1, events[1]) == s1.(connected := true, written := Wire(argv), obuf := []);
  }

  lemma OutlookOfDisconnect(cb: Callback, reply: Reply)
    requires ActionsOn(cb, Some(reply)) == [Action.Disconnect]
    ensures Foreseen([cb], false, [reply]) == Outlook([cb], [], true) && !FreesOn(cb, reply)
  {
    hide Wire;
    var actions := [Action.Disconnect];
    assert Requested(actions) == [] && actions[0].Disconnect? && !AsksToFree(actions);
    assert [cb][1..] + Callbacks([]) == [] && [reply][1..] == [];
    assert Foreseen([], true, []) == Outlook([], [], true);
  }

  /** The regular disconnect: a callback asks for it when it gets its reply, nothing else is pending, and the
      user is told that all went well. */
  lemma DisconnectFromCallback(cb: Callback, argv: Argv, text: bytes, reply: Reply)
    requires Decode(text) == Decoded([reply], Waiting)
    requires ActionsOn(cb, Some(reply)) == [Action.Disconnect]
    ensures var r := Run(SentCommand(cb, argv) + [Readable(ConnOk, [], Data(text))]);
            r.teardowns == 1 && r.notified == [true]
  {
    hide Decode, Wire, Run, Output, Inv, Foreseen, FreesOn, AcceptedBy;
    var s, e := Sent(cb, argv), Readable(ConnOk, [], Data(text));
    SentRun(cb, argv);
    DecodeEmpty();
    EventFate(SentCommand(cb, argv), e);
    assert [] + text == text;
    OutlookOfDisconnect(cb, reply);
    OutputOfNothing([]);
    assert AtHand(s.(fed := text)) == [reply];
    assert FateOf(s, e) == EndsCleanly;
    DisconnectNotified(SentCommand(cb, argv) + [e]);
  }

  /** A command is written, and the user disconnects. */
  function AbandonedCommand(cb: Callback, argv: Argv): seq<Event> {
    SentCommand(cb, argv) + [Call(Action.Disconnect)]
  }

  function Abandoned(cb: Callback, argv: Argv): State {
    Sent(cb, argv).(disconnecting := true)
  }

  lemma AbandonedRun(cb: Callback, argv: Argv)
    ensures Run(AbandonedCommand(cb, argv)) == Abandoned(cb, argv)
  {
    hide Decode, Wire, Run, Callbacks, Output, Inv, AcceptedBy;
    SentRun(cb, argv);
    EventFate(SentCommand(cb, argv), Call(Action.Disconnect));
  }

  /** The clean disconnect fails its assertion: the user disconnects, and a read event brings nothing. */
  lemma DisconnectAbortsInSomeRun()
    ensures exists events :: Run(events).aborted
  {
    hide Decode, Wire, Run, Callbacks, Output, Inv;
    var cb, argv: Argv := NullCallback(0), [[]];
    var s := Abandoned(cb, argv);
    AbandonedRun(cb, argv);
    DecodeEmpty();
    var r := RunSnoc(AbandonedCommand(cb, argv), Readable(ConnOk, [], ReadAgain));
    assert Processed(s) == Hangup(s);
  }

  /** A disconnect that the user asked for is reported as an error: the server closes the connection
      before it has answered. The documentation promises REDIS_OK. */
  lemma DisconnectReportedAsError(cb: Callback, argv: Argv)
    ensures Run(AbandonedCommand(cb, argv) + [Readable(ConnOk, [], Eof)]).notified
         == [AsksToFree(ActionsOn(cb, None))]
  {
    hide Decode, Wire, Run, Callbacks, Output, Inv, AsksToFree, Drained;
    var s := Abandoned(cb, argv);
    AbandonedRun(cb, argv);
    DecodeEmpty();
    var r := RunSnoc(AbandonedCommand(cb, argv), Readable(ConnOk, [], Eof));
    var closing := s.(err := true);
    DrainedOne(closing);
    assert r == Hangup(closing) == TornDown(closing);
    assert r.freeing == Drained(closing).freeing;
    assert [] + [r.freeing] == [r.freeing];
  }

  lemma DrainedOne(s: State)
    requires |s.pending| == 1 && s.disconnecting && !s.freeing && !s.inCallback
    ensures Drained(s).freeing == AsksToFree(ActionsOn(s.pending[0], None))
  {
    hide Wire, AsksToFree, AsksToDisconnect, Requested;
    DeliveredWhileClosing(s, None);
    DeliveredIsAsked(s, None);
    var r := Delivered(s, None);
    assert r.pending == [] && Drained(s) == Drained(r) == r;
  }

  lemma NoGreetings(s: State)
    ensures Greeted(s, []) == s
  {
  }

  lemma DecodeEmpty()
    ensures Decode([]) == Decoded([], Waiting)
  {
  }
}
