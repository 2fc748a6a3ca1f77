/**
 The asynchronous context of hiredis/async.c as an object: a linked list of pending callbacks, flags,
 an output buffer and a reply reader. Every method is proved to do what the state machine of
 `AsyncMachine` does.
 */
module AsyncContexts {
  import opened Options
  import opened Bytes
  import opened SdsStrings
  import opened Resp
  import opened ReplyReader
  import opened Commands
  import opened ArgumentScanner
  import opened AsyncMachine
  import opened AsyncRuns

  class CallbackNode {
    const cb: Callback
    var next: CallbackNode?

    constructor (cb: Callback)
      ensures this.cb == cb && next == null
    {
      this.cb, next := cb, null;
    }
  }

  class CallbackList {
    var head: CallbackNode?
    var tail: CallbackNode?
    ghost var nodes: seq<CallbackNode>

    ghost predicate Valid()
      reads this, nodes
    {
      if nodes == [] then head == null && tail == null
      else
        && head == nodes[0] && tail == nodes[|nodes| - 1]
        && (forall i :: 0 <= i < |nodes| - 1 ==> nodes[i].next == nodes[i + 1])
        && nodes[|nodes| - 1].next == null
        && (forall i, j :: 0 <= i < j < |nodes| ==> nodes[i] != nodes[j])
    }

    ghost function Contents(): seq<Callback>
      reads `nodes
    {
      CallbacksOf(nodes)
    }

    static ghost function CallbacksOf(nodes: seq<CallbackNode>): seq<Callback> {
      seq(|nodes|, i requires 0 <= i < |nodes| => nodes[i].cb)
    }

    ghost function Repr(): set<object>
      reads `nodes
    {
      set n | n in nodes
    }

    constructor ()
      ensures Valid() && nodes == []
    {
      head, tail, nodes := null, null, [];
    }

    method Push(cb: Callback)
      requires Valid()
      modifies this, Repr()
      ensures Valid() && Contents() == old(Contents()) + [cb]
      ensures fresh(Repr() - old(Repr()))
    {
      var node := new CallbackNode(cb);
      if head == null {
        head := node;
      }
      if tail != null {
        tail.next := node;
      }
      tail := node;
      nodes := nodes + [node];
      assert CallbacksOf(nodes) == CallbacksOf(old(nodes)) + [cb];
    }

    method Shift() returns (cb: Option<Callback>)
      requires Valid()
      modifies this
      ensures Valid() && Repr() <= old(Repr())
      ensures old(Contents()) == [] ==> cb.None? && nodes == []
      ensures old(Contents()) != [] ==> cb == Some(old(Contents())[0]) && Contents() == old(Contents())[1..]
    {
      var node := head;
      if node == null {
        return None;
      }
      assert node == nodes[0] && node.next == (if |nodes| > 1 then nodes[1] else null);
      head := node.next;
      if node == tail {
        tail := null;
      }
      assert CallbacksOf(nodes)[1..] == CallbacksOf(nodes[1..]);
      nodes := nodes[1..];
      return Some(node.cb);
    }
  }

  class RedisAsyncContext {
    var connected: bool
    var disconnecting: bool
    var freeing: bool
    var inCallback: bool
    var err: bool
    var obuf: Sds
    const replies: CallbackList
    const reader: RedisReader

    ghost var accepted: seq<Request>
    ghost var consumed: seq<Delivery>
    ghost var written: bytes
    ghost var notified: seq<bool>
    ghost var teardowns: nat
    ghost var aborted: bool

    ghost function Nodes(): set<object>
      reads replies
    {
      replies.Repr()
    }

    ghost predicate Valid()
      reads this, replies, replies.nodes, reader, reader.repr
    {
      && obuf.Sds?
      && replies.Valid() && reader.Valid()
      && Nodes() + {replies} !! reader.repr + {reader}
      && this !in reader.repr
    }

    ghost function View(): State
      requires obuf.Sds?
      reads this, replies, reader
    {
      State(connected, disconnecting, freeing, inCallback, err, replies.Contents(), obuf.data,
            reader.fed, |reader.emitted|, accepted, consumed, written, notified, teardowns, aborted)
    }

    constructor ()
      ensures Valid() && View() == INIT
      ensures fresh(replies) && fresh(Nodes()) && fresh(reader) && fresh(reader.repr)
    {
      connected, disconnecting, freeing, inCallback, err := false, false, false, false, false;
      obuf := Empty();
      replies := new CallbackList();
      reader := new RedisReader();
      accepted, consumed, written, notified, teardowns, aborted := [], [], [], [], 0, false;
    }

    // ---------------------------------------------------------------- API calls

    /** __redisAsyncCommand with a regular command. */
    method Issue(cb: Callback, argv: Argv) returns (ok: bool)
      requires Valid()
      modifies this, replies, Nodes()
      ensures Valid() && fresh(Nodes() - old(Nodes()))
      ensures View() == Issued(old(View()), cb, argv)
      ensures ok == !Closing(old(View()))
    {
      hide Wire, OnlyQueues, RedisReader.Valid, CallbackList.Valid;
      hide Acts, Act, Called, Delivered, Drained, TornDown, Hangup, Freed, Disconnected;
      if disconnecting || freeing {
        return false;
      }
      var cmd := Formatted(argv);
      replies.Push(cb);
      obuf := CatLen(obuf, cmd);
      accepted := accepted + [Request(cb, argv)];
      return true;
    }

    /** The command as it is appended, which is taken for a regular one. */
    static method Formatted(argv: Argv) returns (bytes: bytes)
      ensures bytes == Wire(argv)
    {
      var cmd, len := FormatCommandArgv(argv);
      var regular := TakenAsRegular(cmd[..len], argv);
      assert regular;
      return cmd[..len];
    }

    method Free()
      requires Valid()
      modifies this, replies, Nodes()
      ensures Valid() && fresh(Nodes() - old(Nodes()))
      ensures View() == Freed(old(View()))
      decreases if inCallback then 0 else 1, 5
    {
      hide Wire, OnlyQueues, RedisReader.Valid, CallbackList.Valid;
      hide Acts, Act, Called, Delivered, Drained, TornDown, Hangup, Disconnected;
      freeing := true;
      if !inCallback {
        TearDown();
      }
    }

    method Disconnect()
      requires Valid()
      modifies this, replies, Nodes()
      ensures Valid() && fresh(Nodes() - old(Nodes()))
      ensures View() == Disconnected(old(View()))
      decreases if inCallback then 0 else 1, 5
    {
      hide Wire, OnlyQueues, RedisReader.Valid, Acts, Act, Called, Delivered, Drained, TornDown, Hangup, Freed;
      disconnecting := true;
      if !inCallback && replies.head == null {
        HangUp();
      }
    }

    method Perform(a: Action)
      requires Valid()
      modifies this, replies, Nodes()
      ensures Valid() && fresh(Nodes() - old(Nodes()))
      ensures View() == Act(old(View()), a)
      decreases if inCallback then 0 else 1, 6
    {
      hide Wire, OnlyQueues, RedisReader.Valid, CallbackList.Valid;
      hide Acts, Called, Delivered, Drained, TornDown, Hangup, Freed, Disconnected;
      match a
      case Issue(cb, argv) => var _ := Issue(cb, argv);
      case Disconnect => Disconnect();
      case Free => Free();
    }

    /** __redisRunCallback: the callback makes its calls with the flag IN_CALLBACK set. */
    method RunCallback(cb: Callback, reply: Option<Reply>)
      requires Valid() && !inCallback
      modifies this, replies, Nodes()
      ensures Valid() && fresh(Nodes() - old(Nodes()))
      ensures View() == Called(old(View()), cb, reply)
      decreases 1, 1
    {
      hide Wire, OnlyQueues, RedisReader.Valid, CallbackList.Valid, Acts;
      if cb.Callback? {
        RunBody(cb, reply);
      }
    }

    method RunBody(cb: Callback, reply: Option<Reply>)
      requires Valid() && !inCallback && cb.Callback?
      modifies this, replies, Nodes()
      ensures Valid() && fresh(Nodes() - old(Nodes()))
      ensures View() == Acts(old(View()).(inCallback := true), cb.body(reply)).(inCallback := false)
      decreases 1, 0
    {
      hide Wire, OnlyQueues, RedisReader.Valid, CallbackList.Valid, Acts;
      inCallback := true;
      PerformAll(cb.body(reply));
      inCallback := false;
    }

    method PerformAll(actions: seq<Action>)
      requires Valid() && inCallback
      modifies this, replies, Nodes()
      ensures Valid() && fresh(Nodes() - old(Nodes()))
      ensures View() == Acts(old(View()), actions)
      decreases 0, 7
    {
      hide Wire, OnlyQueues, RedisReader.Valid, CallbackList.Valid;
      hide Act, Called, Delivered, Drained, TornDown, Hangup, Freed, Disconnected;
      assert actions[0..] == actions;
      for i := 0 to |actions|
        invariant Valid() && inCallback && fresh(Nodes() - old(Nodes()))
        invariant Acts(View(), actions[i..]) == Acts(old(View()), actions)
      {
        assert actions[i..][0] == actions[i] && actions[i..][1..] == actions[i + 1..];
        OneActQueues(View(), actions[i]);
        Perform(actions[i]);
      }
    }

    /** Takes the first pending callback off the list, if there is one, and runs it. */
    method ShiftAndRun(reply: Option<Reply>) returns (ok: bool)
      requires Valid() && !inCallback
      modifies this, replies, Nodes()
      ensures Valid() && fresh(Nodes() - old(Nodes()))
      ensures ok == (old(View()).pending != [])
      ensures View() == if ok then Delivered(old(View()), reply) else old(View())
      decreases 1, 2
    {
      hide Wire, OnlyQueues, RedisReader.Valid, CallbackList.Valid, Acts, Called;
      ghost var before := View();
      var cb := replies.Shift();
      if cb.None? {
        return false;
      }
      consumed := consumed + [Delivery(cb.value, reply)];
      assert View() == Shifted(before, reply);
      RunCallback(cb.value, reply);
      return true;
    }

    /** __redisAsyncFree */
    method TearDown()
      requires Valid() && !inCallback && Closing(View())
      modifies this, replies, Nodes()
      ensures Valid() && fresh(Nodes() - old(Nodes()))
      ensures View() == TornDown(old(View()))
      decreases 1, 3
    {
      hide Wire, OnlyQueues, RedisReader.Valid, CallbackList.Valid, Acts, Called, Delivered;
      var ok := true;
      while ok
        invariant Valid() && !inCallback && Closing(View()) && fresh(Nodes() - old(Nodes()))
        invariant Drained(View()) == Drained(old(View()))
        invariant !ok ==> View().pending == []
        decreases |View().pending|, ok
      {
        ghost var before := View();
        ok := ShiftAndRun(None);
        if ok {
          DeliveredWhileClosing(before, None);
        }
      }
      if connected {
        notified := notified + [freeing || !err];
      }
      teardowns := teardowns + 1;
    }

    /** __redisAsyncDisconnect; a failed assert ends the process. */
    method HangUp()
      requires Valid() && !inCallback && (err || disconnecting)
      modifies this, replies, Nodes()
      ensures Valid() && fresh(Nodes() - old(Nodes()))
      ensures View() == Hangup(old(View()))
      decreases 1, 4
    {
      hide Wire, OnlyQueues, RedisReader.Valid, Acts, Act, Called, Delivered, Drained, TornDown, Freed, Disconnected;
      if !err {
        if replies.head != null {
          aborted := true;
          return;
        }
      } else {
        disconnecting := true;
      }
      TearDown();
    }

    // ---------------------------------------------------------------- events

    /** redisGetReply on a non-blocking context: the next reply of the stream, if there is one. */
    method NextReply() returns (ok: bool, reply: Option<Reply>)
      requires Valid()
      modifies this`err, reader, reader.repr
      ensures Valid() && fresh(reader.repr - old(reader.repr))
      ensures var s, d := old(View()), Decode(old(View()).fed);
              && s.taken <= |d.replies|
              && (!ok ==> reply.None? && s.taken == |d.replies| && d.ending.Failed? && View() == s.(err := true))
              && (ok && reply.None? ==> s.taken == |d.replies| && d.ending.Waiting? && View() == s)
              && (ok && reply.Some? ==>
                    s.taken < |d.replies| && reply.value == d.replies[s.taken] && View() == s.(taken := s.taken + 1))
    {
      hide CallbackList.Valid, Decode, RedisReader.Valid, RedisReply.Valid;
      reply := None;
      var r: RedisReply?;
      ok, r := reader.GetReply();
      reader.EmittedIsDecoded();
      if !ok {
        err := true;
      } else if r != null {
        var v := ToReply(r);
        reply := Some(v);
      }
    }

    /** One reply: it goes to the first pending callback; without one it must be an error. */
    method Dispatch(reply: Reply) returns (again: bool)
      requires Valid() && !inCallback && !freeing
      modifies this, replies, Nodes()
      ensures Valid() && fresh(Nodes() - old(Nodes()))
      ensures (View(), again) == Dispatched(old(View()), reply)
    {
      hide Wire, OnlyQueues, RedisReader.Valid, CallbackList.Valid, Delivered, Hangup, TornDown, Decode;
      var ok := ShiftAndRun(Some(reply));
      if !ok {
        if reply.Error? {
          err := true;
          HangUp();
        } else {
          aborted := true;
        }
        return false;
      }
      if freeing {
        DeliveredKeepsStream(old(View()), Some(reply));
        TearDown();
        return false;
      }
      return true;
    }

    /** No reply: the stream is broken, or the connection may be closed, or there is more to come. */
    method Starve(ok: bool, ghost ending: Ending)
      requires Valid() && !inCallback && (ok <==> ending.Waiting?) && (!ok ==> err)
      modifies this, replies, Nodes()
      ensures Valid() && fresh(Nodes() - old(Nodes()))
      ensures View() == Starved(old(View()), ending)
    {
      hide Wire, OnlyQueues, RedisReader.Valid, CallbackList.Valid, Hangup;
      if !ok || (disconnecting && |obuf.data| == 0) {
        HangUp();
      }
    }

    /** redisProcessCallbacks */
    method ProcessCallbacks()
      requires Valid() && !inCallback && !freeing
      modifies this, replies, Nodes(), reader, reader.repr
      ensures Valid() && fresh(Nodes() - old(Nodes())) && fresh(reader.repr - old(reader.repr))
      ensures old(View()).taken <= |Decode(old(View()).fed).replies|
      ensures View() == Processed(old(View()))
    {
      hide Wire, OnlyQueues, RedisReader.Valid, CallbackList.Valid, Dispatched, Hangup, Decode;
      ghost var s := View();
      TakenIsDecoded();
      while true
        invariant Valid() && !inCallback && !freeing
        invariant fresh(Nodes() - old(Nodes())) && fresh(reader.repr - old(reader.repr))
        invariant View().taken <= |Decode(View().fed).replies|
        invariant Processed(View()) == Processed(s)
        decreases |Decode(View().fed).replies| - View().taken
      {
        ghost var prev := View();
        ghost var d := Decode(prev.fed);
        var ok, reply := NextReply();
        if reply.None? {
          Starve(ok, d.ending);
          return;
        }
        var again := Dispatch(reply.value);
        ProcessedStep(prev);
        if !again {
          return;
        }
      }
    }

    static lemma ProcessedStep(s: State)
      requires !s.inCallback && !s.freeing && s.taken < |Decode(s.fed).replies|
      ensures var (r, again) := Dispatched(s.(taken := s.taken + 1), Decode(s.fed).replies[s.taken]);
              && Processed(s) == (if again then Processed(r) else r)
              && (again ==> r.fed == s.fed && r.taken == s.taken + 1 && !r.inCallback && !r.freeing)
    {
      hide Decode, Dispatched;
    }

    lemma TakenIsDecoded()
      requires Valid()
      ensures View().taken <= |Decode(View().fed).replies|
    {
      reader.EmittedIsDecoded();
    }

    static lemma DeliveredKeepsStream(s: State, reply: Option<Reply>)
      requires s.pending != [] && !s.inCallback
      ensures var r := Delivered(s, reply); r.fed == s.fed && r.taken == s.taken && !r.inCallback
    {
    }

    /** __redisAsyncHandleConnect; `status` is the outcome of the socket test. A connect that is still
        in progress leaves the error of the test behind. */
    method HandleConnect(status: ConnectStatus, greetings: seq<Request>) returns (ok: bool)
      requires Valid() && !inCallback && !connected
      modifies this, replies, Nodes()
      ensures Valid() && fresh(Nodes() - old(Nodes()))
      ensures View() == Connected(old(View()), status, greetings)
      ensures ok == !status.ConnFailed?
    {
      hide Wire, OnlyQueues, RedisReader.Valid, CallbackList.Valid, Hangup, Issued;
      ok := true;
      match status
      case ConnOk =>
        connected := true;
        Greet(greetings);
      case InProgress =>
        err := true;
      case ConnFailed =>
        err := true;
        Greet(greetings);
        HangUp();
        ok := false;
    }

    /** The commands issued by the connect callback. */
    method Greet(greetings: seq<Request>)
      requires Valid()
      modifies this, replies, Nodes()
      ensures Valid() && fresh(Nodes() - old(Nodes()))
      ensures View() == Greeted(old(View()), greetings)
    {
      hide Wire, OnlyQueues, RedisReader.Valid, CallbackList.Valid, Issued;
      assert greetings[0..] == greetings;
      for i := 0 to |greetings|
        invariant Valid() && fresh(Nodes() - old(Nodes()))
        invariant Greeted(View(), greetings[i..]) == Greeted(old(View()), greetings)
      {
        assert greetings[i..][0] == greetings[i] && greetings[i..][1..] == greetings[i + 1..];
        var _ := Issue(greetings[i].cb, greetings[i].argv);
      }
    }

    /** redisAsyncHandleRead */
    method HandleRead(status: ConnectStatus, greetings: seq<Request>, read: ReadResult)
      requires Valid() && Quiet(View()) && !Gone(View())
      modifies this, replies, Nodes(), reader, reader.repr
      ensures Valid() && fresh(Nodes() - old(Nodes())) && fresh(reader.repr - old(reader.repr))
      ensures View() == Step(old(View()), Readable(status, greetings, read))
    {
      hide Wire, OnlyQueues, RedisReader.Valid, CallbackList.Valid, Connected, ReadEvent, Decode;
      ConnectedIsQuiet(View(), status, greetings);
      ConnectedIsAlive(View(), status, greetings);
      if !connected {
        var ok := HandleConnect(status, greetings);
        if !ok {
          return;
        }
        if !connected {
          return;
        }
      }
      ReadAndProcess(read);
    }

    /** redisBufferRead, and what redisAsyncHandleRead does with its outcome. */
    method ReadAndProcess(read: ReadResult)
      requires Valid() && Quiet(View()) && !Gone(View())
      modifies this, replies, Nodes(), reader, reader.repr
      ensures Valid() && fresh(Nodes() - old(Nodes())) && fresh(reader.repr - old(reader.repr))
      ensures View() == ReadEvent(old(View()), read)
    {
      hide Wire, OnlyQueues, CallbackList.Valid, Hangup, Processed, Decode;
      if err {
        HangUp();
        return;
      }
      match read
      case Data(data) =>
        ReadData(data);
      case ReadAgain =>
        ProcessCallbacks();
      case _ =>
        err := true;
        HangUp();
    }

    method ReadData(data: bytes)
      requires Valid() && !inCallback && !freeing
      modifies this, replies, Nodes(), reader, reader.repr
      ensures Valid() && fresh(Nodes() - old(Nodes())) && fresh(reader.repr - old(reader.repr))
      ensures old(View()).taken <= |Decode(old(View()).fed + data).replies|
      ensures View() == Processed(old(View()).(fed := old(View()).fed + data))
    {
      hide Wire, OnlyQueues, CallbackList.Valid, Hangup, Decode;
      var ok := reader.Feed(data);
      TakenIsDecoded();
      if !ok {
        err := true;
        HangUp();
      } else {
        ProcessCallbacks();
      }
    }

    /** Only a successful connect leaves the context connected; only a failed one ends it. */
    static lemma ConnectedIsAlive(s: State, status: ConnectStatus, greetings: seq<Request>)
      requires Quiet(s) && !Gone(s)
      ensures !s.connected ==>
                var r := Connected(s, status, greetings);
                && r.connected == status.ConnOk?
                && (Gone(r) <==> status.ConnFailed?)
    {
      if status.ConnOk? {
        GreetedQueues(s.(connected := true), greetings);
      }
    }

    /** redisAsyncHandleWrite */
    method HandleWrite(status: ConnectStatus, greetings: seq<Request>, write: WriteResult)
      requires Valid() && Quiet(View()) && !Gone(View())
      modifies this, replies, Nodes()
      ensures Valid() && fresh(Nodes() - old(Nodes()))
      ensures View() == Step(old(View()), Writable(status, greetings, write))
    {
      hide Wire, OnlyQueues, RedisReader.Valid, CallbackList.Valid, Connected, WriteEvent, Decode;
      ConnectedIsQuiet(View(), status, greetings);
      ConnectedIsAlive(View(), status, greetings);
      if !connected {
        var ok := HandleConnect(status, greetings);
        if !ok {
          return;
        }
        if !connected {
          return;
        }
      }
      var _ := BufferWrite(write);
    }

    /** redisBufferWrite, and what redisAsyncHandleWrite does with its outcome. Nothing is left to write
        exactly when it reports so. */
    method BufferWrite(write: WriteResult) returns (done: bool)
      requires Valid() && !inCallback
      modifies this, replies, Nodes()
      ensures Valid() && fresh(Nodes() - old(Nodes()))
      ensures View() == WriteEvent(old(View()), write)
      ensures done ==> View().obuf == []
      ensures !done ==> View().obuf != [] || old(err) || write.WriteError?
    {
      hide Wire, OnlyQueues, RedisReader.Valid, CallbackList.Valid, Hangup, Closing, Decode;
      if err {
        HangUp();
        return false;
      }
      if |obuf.data| > 0 {
        match write
        case Wrote(n) =>
          DropWritten(if n <= |obuf.data| then n else |obuf.data|);
        case WriteAgain =>
        case WriteError =>
          err := true;
          HangUp();
          return false;
      }
      return |obuf.data| == 0;
    }

    /** The socket took `k` bytes: they leave the output buffer. */
    method DropWritten(k: nat)
      requires Valid() && k <= |obuf.data|
      modifies `written, `obuf
      ensures Valid()
      ensures View() == old(View()).(written := old(written) + old(obuf.data)[..k], obuf := old(obuf.data)[k..])
    {
      hide RedisReader.Valid, CallbackList.Valid, Range, Decode;
      written := written + obuf.data[..k];
      DropFront(obuf, k);
      if k > 0 {
        if k == |obuf.data| {
          obuf := Empty();
        } else {
          obuf := Range(obuf, k, -1);
        }
      }
    }

    /** Every call and event, as long as the context lives. */
    method Handle(e: Event)
      requires Valid() && Quiet(View()) && !Gone(View())
      modifies this, replies, Nodes(), reader, reader.repr
      ensures Valid() && fresh(Nodes() - old(Nodes())) && fresh(reader.repr - old(reader.repr))
      ensures View() == Step(old(View()), e)
    {
      hide Wire, OnlyQueues, RedisReader.Valid, CallbackList.Valid, Connected, ReadEvent, WriteEvent, Decode, Act;
      match e
      case Call(a) => Perform(a);
      case Readable(status, greetings, read) => HandleRead(status, greetings, read);
      case Writable(status, greetings, write) => HandleWrite(status, greetings, write);
    }
  }

  /** A context from its creation on, through any calls and events up to the one that ends it: what is
      proved of the runs of the machine holds of the object. */
  method RunAll(events: seq<Event>) returns (c: RedisAsyncContext)
    requires forall i :: 0 <= i < |events| ==> !Gone(Run(events[..i]))
    ensures fresh(c) && c.Valid() && c.View() == Run(events)
  {
    hide Step, Wire, Decode, RedisReader.Valid, CallbackList.Valid, Run, Inv, Quiet, Gone;
    c := new RedisAsyncContext();
    RunEmpty();
    assert events[..0] == [];
    for i := 0 to |events|
      invariant fresh(c) && fresh(c.replies) && fresh(c.Nodes()) && fresh(c.reader) && fresh(c.reader.repr)
      invariant c.Valid() && c.View() == Run(events[..i])
    {
      assert events[..i + 1] == events[..i] + [events[i]];
      var _ := RunSnoc(events[..i], events[i]);
      RunIsQuiet(events[..i]);
      c.Handle(events[i]);
    }
    assert events[..|events|] == events;
  }
}
