/** The receive thread and its response queue (pybtp/btp_worker.py, pybtp/btp.py). */
module Workers {
  import opened Bytes
  import opened Frames
  import opened Streams
  import opened Sockets

  const BTP_SERVICE_ID_CORE: byte := 0
  const BTP_SERVICE_ID_GAP: byte := 1
  const BTP_SERVICE_ID_GATT: byte := 2
  const BTP_SERVICE_ID_MESH: byte := 4
  const BTP_SERVICE_ID_GATTC: byte := 6
  const BTP_STATUS: byte := 0

  /** What `event_handler_cb(*data)` does with a frame. */
  datatype Verdict = Handled | NotHandled | Raised

  /** The handler's verdict on the i-th frame received; it depends on the stack at that moment. */
  type Handler = (nat, Frame) -> Verdict

  datatype Route = ToHandler | ToQueue | Fatal

  /** Frames that are offered to the event handler; all others are responses. */
  predicate IsEvent(f: Frame) {
    f.svcId != BTP_SERVICE_ID_CORE && f.op >= 0x80
  }

  /** The (service, opcode) pairs for which `BTPEventHandler` has a callback. */
  predicate HasCallback(svcId: byte, op: byte) {
    || (svcId == BTP_SERVICE_ID_GAP && 0x80 <= op <= 0x8a)
    || (svcId == BTP_SERVICE_ID_GATT && 0x80 <= op <= 0x81)
    || (svcId == BTP_SERVICE_ID_MESH && 0x80 <= op <= 0x88)
    || (svcId == BTP_SERVICE_ID_GATTC && (0x81 <= op <= 0x87 || op in {0x89, 0x8b, 0x8c, 0x8e, 0x8f, 0x90}))
  }

  function RouteOf(h: Option<Handler>, i: nat, f: Frame): Route {
    if IsEvent(f) && h.Some? then
      match h.value(i, f)
      case Handled => ToHandler
      case NotHandled => ToQueue
      case Raised => Fatal
    else ToQueue
  }

  /** Exactly the frames of other services than the core, with the high bit of the opcode set, are offered. */
  lemma OfferedExactly(h: Handler, i: nat, f: Frame)
    ensures f.svcId != 0 && f.op >= 128 ==>
              && (h(i, f) == Handled ==> RouteOf(Some(h), i, f) == ToHandler)
              && (h(i, f) == NotHandled ==> RouteOf(Some(h), i, f) == ToQueue)
              && (h(i, f) == Raised ==> RouteOf(Some(h), i, f) == Fatal)
    ensures f.svcId == 0 || f.op < 128 ==> RouteOf(Some(h), i, f) == ToQueue
    ensures RouteOf(None, i, f) == ToQueue
  {
  }

  /** The events that have a callback, by number; each of them is offered. */
  lemma CallbackTable(svcId: byte, op: byte)
    ensures HasCallback(1, op) <==> 128 <= op <= 138
    ensures HasCallback(2, op) <==> op == 128 || op == 129
    ensures HasCallback(4, op) <==> 128 <= op <= 136
    ensures HasCallback(6, op) <==>
            129 <= op <= 135 || op == 137 || op == 139 || op == 140 || op == 142 || op == 143 || op == 144
    ensures svcId != 1 && svcId != 2 && svcId != 4 && svcId != 6 ==> !HasCallback(svcId, op)
    ensures HasCallback(svcId, op) ==> svcId != 0 && op >= 128
  {
  }

  /** The frames of fs that reach the queue, the first of fs being the i-th received. */
  function Queued(h: Option<Handler>, i: nat, fs: seq<Frame>): seq<Frame>
    decreases |fs|
  {
    if fs == [] then []
    else
      match RouteOf(h, i, fs[0])
      case ToHandler => Queued(h, i + 1, fs[1..])
      case ToQueue => [fs[0]] + Queued(h, i + 1, fs[1..])
      case Fatal => []
  }

  /** The frames of fs that the handler consumes. */
  function Consumed(h: Option<Handler>, i: nat, fs: seq<Frame>): seq<Frame>
    decreases |fs|
  {
    if fs == [] then []
    else
      match RouteOf(h, i, fs[0])
      case ToHandler => [fs[0]] + Consumed(h, i + 1, fs[1..])
      case ToQueue => Consumed(h, i + 1, fs[1..])
      case Fatal => []
  }

  /** A callback that raises ends the receive thread. */
  predicate Survives(h: Option<Handler>, i: nat, fs: seq<Frame>)
    decreases |fs|
  {
    fs == [] || (RouteOf(h, i, fs[0]) != Fatal && Survives(h, i + 1, fs[1..]))
  }

  /** How many frames are dispatched before a callback raises, if one does. */
  function Dispatched(h: Option<Handler>, i: nat, fs: seq<Frame>): (n: nat)
    ensures n <= |fs|
    decreases |fs|
  {
    if fs == [] || RouteOf(h, i, fs[0]) == Fatal then 0 else 1 + Dispatched(h, i + 1, fs[1..])
  }

  /** Every event among fs has a callback. */
  predicate AllEventsHandled(h: Option<Handler>, i: nat, fs: seq<Frame>)
    decreases |fs|
  {
    fs == [] || ((IsEvent(fs[0]) ==> RouteOf(h, i, fs[0]) == ToHandler) && AllEventsHandled(h, i + 1, fs[1..]))
  }

  /** Responses among fs, in order. */
  function Responses(fs: seq<Frame>): seq<Frame> {
    if fs == [] then []
    else (if IsEvent(fs[0]) then [] else [fs[0]]) + Responses(fs[1..])
  }

  lemma {:induction false} ResponsesConcat(a: seq<Frame>, b: seq<Frame>)
    ensures Responses(a + b) == Responses(a) + Responses(b)
  {
    if a == [] {
      assert a + b == b;
    } else {
      var head := if IsEvent(a[0]) then [] else [a[0]];
      ResponsesConcat(a[1..], b);
      assert (a + b)[0] == a[0] && (a + b)[1..] == a[1..] + b;
      assert head + (Responses(a[1..]) + Responses(b)) == (head + Responses(a[1..])) + Responses(b);
    }
  }

  lemma ResponsesCons(f: Frame, fs: seq<Frame>)
    ensures Responses([f] + fs) == (if IsEvent(f) then [] else [f]) + Responses(fs)
  {
    assert ([f] + fs)[1..] == fs;
  }

  lemma {:induction false} AllDispatched(h: Option<Handler>, i: nat, fs: seq<Frame>)
    ensures Survives(h, i, fs) <==> Dispatched(h, i, fs) == |fs|
    decreases |fs|
  {
    if fs != [] {
      AllDispatched(h, i + 1, fs[1..]);
    }
  }

  lemma FirstOf(fs: seq<Frame>, n: nat)
    requires 0 < n <= |fs|
    ensures fs[..n] == [fs[0]] + fs[1..][..n - 1] && fs[..n][0] == fs[0] && fs[..n][1..] == fs[1..][..n - 1]
  {
  }

  lemma OneMore(f: Frame, a: seq<Frame>, b: seq<Frame>, c: seq<Frame>)
    requires multiset(a) + multiset(b) == multiset(c)
    ensures multiset([f] + a) + multiset(b) == multiset([f] + c) && multiset(a) + multiset([f] + b) == multiset([f] + c)
  {
  }

  /**
   Every frame up to a callback that raises is consumed or queued, and once only; that one and all after
   it are neither.
   */
  lemma {:induction false} Conservation(h: Option<Handler>, i: nat, fs: seq<Frame>)
    ensures multiset(Queued(h, i, fs)) + multiset(Consumed(h, i, fs)) == multiset(fs[..Dispatched(h, i, fs)])
    decreases |fs|
  {
    if fs != [] && RouteOf(h, i, fs[0]) != Fatal {
      var rest := fs[1..];
      var q, c, n := Queued(h, i + 1, rest), Consumed(h, i + 1, rest), Dispatched(h, i + 1, rest);
      Conservation(h, i + 1, rest);
      FirstOf(fs, n + 1);
      OneMore(fs[0], q, c, rest[..n]);
      if RouteOf(h, i, fs[0]) == ToQueue {
        assert Queued(h, i, fs) == [fs[0]] + q && Consumed(h, i, fs) == c;
      } else {
        assert Queued(h, i, fs) == q && Consumed(h, i, fs) == [fs[0]] + c;
      }
    }
  }

  /** Every dispatched response is queued, in the order of arrival, and none is consumed. */
  lemma {:induction false} ResponsesAreQueued(h: Option<Handler>, i: nat, fs: seq<Frame>)
    ensures Responses(Queued(h, i, fs)) == Responses(fs[..Dispatched(h, i, fs)]) && Responses(Consumed(h, i, fs)) == []
    decreases |fs|
  {
    if fs != [] && RouteOf(h, i, fs[0]) != Fatal {
      ResponsesAreQueued(h, i + 1, fs[1..]);
      ResponsesCons(fs[0], Queued(h, i + 1, fs[1..]));
      ResponsesCons(fs[0], Consumed(h, i + 1, fs[1..]));
      FirstOf(fs, Dispatched(h, i, fs));
      ResponsesCons(fs[0], fs[1..][..Dispatched(h, i + 1, fs[1..])]);
    }
  }

  /** The queue holds exactly the dispatched responses if and only if every dispatched event finds a callback. */
  lemma {:induction false} QueueHoldsResponses(h: Option<Handler>, i: nat, fs: seq<Frame>)
    ensures var got := fs[..Dispatched(h, i, fs)]; Queued(h, i, fs) == Responses(got) <==> AllEventsHandled(h, i, got)
    decreases |fs|
  {
    if fs != [] && RouteOf(h, i, fs[0]) != Fatal {
      var f, rest := fs[0], fs[1..][..Dispatched(h, i + 1, fs[1..])];
      var q, r := Queued(h, i + 1, fs[1..]), Responses(rest);
      QueueHoldsResponses(h, i + 1, fs[1..]);
      FirstOf(fs, Dispatched(h, i, fs));
      ResponsesCons(f, rest);
      if IsEvent(f) && RouteOf(h, i, f) == ToQueue {
        ResponsesAreNotEvents(rest);
        assert Queued(h, i, fs)[0] == f;
      } else if !IsEvent(f) {
        assert ([f] + q)[1..] == q && ([f] + r)[1..] == r;
      }
    }
  }

  lemma {:induction false} ResponsesAreNotEvents(fs: seq<Frame>)
    ensures forall f <- Responses(fs) :: !IsEvent(f)
  {
    if fs != [] {
      ResponsesAreNotEvents(fs[1..]);
    }
  }

  lemma {:induction false} QueuedSnoc(h: Option<Handler>, i: nat, fs: seq<Frame>, f: Frame)
    ensures Queued(h, i, fs + [f]) ==
            Queued(h, i, fs) + if Survives(h, i, fs) && RouteOf(h, i + |fs|, f).ToQueue? then [f] else []
    decreases |fs|
  {
    if fs == [] {
      assert [f][1..] == [];
      assert Queued(h, i + 1, []) == [];
    } else {
      QueuedSnoc(h, i + 1, fs[1..], f);
      assert (fs + [f])[1..] == fs[1..] + [f];
    }
  }

  lemma {:induction false} SurvivesConcat(h: Option<Handler>, i: nat, a: seq<Frame>, b: seq<Frame>)
    ensures Survives(h, i, a + b) <==> Survives(h, i, a) && Survives(h, i + |a|, b)
    decreases |a|
  {
    if a == [] {
      assert a + b == b;
    } else {
      SurvivesConcat(h, i + 1, a[1..], b);
      assert (a + b)[1..] == a[1..] + b;
    }
  }

  /** Frames after one whose callback raises are not dispatched. */
  lemma {:induction false} StopsForGood(h: Option<Handler>, i: nat, part: seq<Frame>, fs: seq<Frame>)
    requires part <= fs && !Survives(h, i, part)
    ensures !Survives(h, i, fs) && Queued(h, i, fs) == Queued(h, i, part)
    decreases |part|
  {
    if RouteOf(h, i, fs[0]) != Fatal {
      StopsForGood(h, i + 1, part[1..], fs[1..]);
    }
  }

  /** A read of the receive thread that returns a frame, after it has dispatched the frames in done. */
  lemma DispatchFrame(h: Option<Handler>, done: seq<Frame>, s: seq<Delivery>)
    requires s != [] && Survives(h, 0, done) && ReadFrame(s).frame.Some?
    ensures var f, rest := ReadFrame(s).frame.value, ReadFrame(s).rest;
            && Remaining(rest) < Remaining(s)
            && done + [f] + ReceiveAll(rest).frames == done + ReceiveAll(s).frames
            && (Survives(h, 0, done + [f]) <==> RouteOf(h, |done|, f) != Fatal)
            && Queued(h, 0, done + [f]) == Queued(h, 0, done) + if RouteOf(h, |done|, f).ToQueue? then [f] else []
  {
    ReadFrameProgress(s);
    var r := ReadFrame(s);
    Associative(done, [r.frame.value], ReceiveAll(r.rest).frames);
    DispatchedSnoc(h, done, r.frame.value);
  }

  /** A read that times out. */
  lemma DispatchTimeout(s: seq<Delivery>)
    requires s != [] && ReadFrame(s).frame.None?
    ensures Remaining(ReadFrame(s).rest) < Remaining(s)
    ensures ReceiveAll(ReadFrame(s).rest).frames == ReceiveAll(s).frames
  {
    ReadFrameProgress(s);
    var rest := ReceiveAll(ReadFrame(s).rest).frames;
    assert [] + rest == rest;
  }

  lemma DispatchedSnoc(h: Option<Handler>, done: seq<Frame>, f: Frame)
    requires Survives(h, 0, done)
    ensures Survives(h, 0, done + [f]) <==> RouteOf(h, |done|, f) != Fatal
    ensures Queued(h, 0, done + [f]) == Queued(h, 0, done) + if RouteOf(h, |done|, f).ToQueue? then [f] else []
  {
    SurvivesConcat(h, 0, done, [f]);
    QueuedSnoc(h, 0, done, f);
  }

  class BtpWorker {
    var rxQueue: seq<Frame>
    var running: bool
    var eventHandlerCb: Option<Handler>

    constructor ()
      ensures rxQueue == [] && !running && eventHandlerCb == None
    {
      rxQueue, running, eventHandlerCb := [], false, None;
    }

    method RegisterEventHandler(handler: Handler)
      modifies this`eventHandlerCb
      ensures eventHandlerCb == Some(handler)
    {
      eventHandlerCb := Some(handler);
    }

    /** One frame in the receive thread: put on the queue unless the handler takes it. */
    method RxFrame(i: nat, data: Frame)
      requires running
      modifies this`rxQueue, this`running
      ensures rxQueue == old(rxQueue) + if RouteOf(eventHandlerCb, i, data).ToQueue? then [data] else []
      ensures running <==> RouteOf(eventHandlerCb, i, data) != Fatal
    {
      if data.svcId != BTP_SERVICE_ID_CORE && data.op >= 0x80 {
        if eventHandlerCb.Some? {
          var ret := eventHandlerCb.value(i, data);
          if ret == Raised {
            running := false;
            return;
          }
          if ret == Handled {
            return;
          }
        }
      }
      rxQueue := rxQueue + [data];
    }

    /** One round of the receive thread, after it has dispatched the i frames in done. */
    method RxRound(sock: BtpSocket, i: nat, ghost done: seq<Frame>, ghost before: seq<Frame>)
        returns (got: Option<Frame>)
      requires running && Open(sock.conn) && sock.conn != [] && i == |done|
      requires Survives(eventHandlerCb, 0, done) && rxQueue == before + Queued(eventHandlerCb, 0, done)
      modifies this`rxQueue, this`running, sock
      ensures Open(sock.conn) && Remaining(sock.conn) < old(Remaining(sock.conn))
      ensures var now := if got.Some? then done + [got.value] else done;
              && now + ReceiveAll(sock.conn).frames == done + ReceiveAll(old(sock.conn)).frames
              && rxQueue == before + Queued(eventHandlerCb, 0, now)
              && (running <==> Survives(eventHandlerCb, 0, now))
    {
      ghost var s := sock.conn;
      got := sock.Read();
      if got.Some? {
        DispatchFrame(eventHandlerCb, done, s);
        ghost var more := if RouteOf(eventHandlerCb, i, got.value).ToQueue? then [got.value] else [];
        Associative(before, Queued(eventHandlerCb, 0, done), more);
        RxFrame(i, got.value);
      } else {
        DispatchTimeout(s);
      }
    }

    /** The receive thread, until nothing more arrives or a callback raises. */
    method RxTask(sock: BtpSocket)
      requires running && Open(sock.conn)
      modifies this`rxQueue, this`running, sock
      ensures var fs := ReceiveAll(old(sock.conn)).frames;
              && rxQueue == old(rxQueue) + Queued(eventHandlerCb, 0, fs)
              && (running <==> Survives(eventHandlerCb, 0, fs))
      ensures running ==> sock.conn == []
    {
      ghost var fs := ReceiveAll(sock.conn).frames;
      ghost var done: seq<Frame> := [];
      var i := 0;
      assert [] + fs == fs && rxQueue + [] == rxQueue;
      while running && sock.conn != []
        invariant Open(sock.conn) && i == |done|
        invariant rxQueue == old(rxQueue) + Queued(eventHandlerCb, 0, done)
        invariant done + ReceiveAll(sock.conn).frames == fs && (running <==> Survives(eventHandlerCb, 0, done))
        decreases running, Remaining(sock.conn)
      {
        var data := RxRound(sock, i, done, old(rxQueue));
        if data.Some? {
          done := done + [data.value];
          i := i + 1;
        }
      }
      if running {
        assert done == fs by { assert done + [] == done; }
      } else {
        StopsForGood(eventHandlerCb, 0, done, fs);
      }
    }

    /** `read`: the oldest queued frame, or a timeout. */
    method Read() returns (r: Option<Frame>)
      modifies this`rxQueue
      ensures old(rxQueue) == [] ==> r == None && rxQueue == []
      ensures old(rxQueue) != [] ==> r == Some(old(rxQueue)[0]) && rxQueue == old(rxQueue)[1..]
    {
      if rxQueue == [] {
        return None;
      }
      r := Some(rxQueue[0]);
      rxQueue := rxQueue[1..];
    }

    method Accept()
      modifies this`running
      ensures running
    {
      running := true;
    }

    /** `close`, after which nothing that was received is left. */
    method Close()
      modifies this`running, this`rxQueue
      ensures !running && rxQueue == []
    {
      running := false;
      ResetRxQueue();
    }

    method ResetRxQueue()
      modifies this`rxQueue
      ensures rxQueue == []
    {
      while rxQueue != []
        decreases |rxQueue|
      {
        rxQueue := rxQueue[1..];
      }
    }
  }

  /**
   `BTPEventHandler.__call__` declines an event exactly when the stack is not initialised or the
   event has no callback.
   */
  ghost predicate FollowsTables(h: Handler, stackUp: nat -> bool) {
    forall i, f :: h(i, f) == NotHandled <==> !stackUp(i) || !HasCallback(f.svcId, f.op)
  }

  /** If the i-th frame is an event, the stack is up then and the tables have a callback. */
  predicate InTables(stackUp: nat -> bool, i: nat, f: Frame) {
    IsEvent(f) ==> stackUp(i) && HasCallback(f.svcId, f.op)
  }

  predicate AllInTables(stackUp: nat -> bool, i: nat, fs: seq<Frame>) {
    forall k | 0 <= k < |fs| :: InTables(stackUp, i + k, fs[k])
  }

  lemma FirstInTables(stackUp: nat -> bool, i: nat, fs: seq<Frame>)
    requires fs != []
    ensures AllInTables(stackUp, i, fs) <==> InTables(stackUp, i, fs[0]) && AllInTables(stackUp, i + 1, fs[1..])
  {
    var rest := fs[1..];
    if AllInTables(stackUp, i, fs) {
      assert InTables(stackUp, i + 0, fs[0]);
      forall k | 0 <= k < |rest| ensures InTables(stackUp, i + 1 + k, rest[k]) {
        assert InTables(stackUp, i + (k + 1), fs[k + 1]);
      }
    }
    if InTables(stackUp, i, fs[0]) && AllInTables(stackUp, i + 1, rest) {
      forall k | 0 <= k < |fs| ensures InTables(stackUp, i + k, fs[k]) {
        if k > 0 {
          assert InTables(stackUp, i + 1 + (k - 1), rest[k - 1]);
        }
      }
    }
  }

  /** Events find a callback exactly if the stack is up and they are in the tables. */
  lemma {:induction false} TablesHandle(h: Handler, stackUp: nat -> bool, i: nat, fs: seq<Frame>)
    requires FollowsTables(h, stackUp) && Survives(Some(h), i, fs)
    ensures AllEventsHandled(Some(h), i, fs) <==> AllInTables(stackUp, i, fs)
    decreases |fs|
  {
    if fs != [] {
      var f := fs[0];
      TablesHandle(h, stackUp, i + 1, fs[1..]);
      FirstInTables(stackUp, i, fs);
      assert h(i, f) == NotHandled <==> !stackUp(i) || !HasCallback(f.svcId, f.op);
    }
  }

  /** While the stack is up, no frame that has a callback gets into the queue, whatever the callbacks do. */
  lemma {:induction false} QueueHasNoCallback(h: Handler, stackUp: nat -> bool, i: nat, fs: seq<Frame>)
    requires FollowsTables(h, stackUp) && forall k: nat | i <= k < i + |fs| :: stackUp(k)
    ensures forall f <- Queued(Some(h), i, fs) :: !HasCallback(f.svcId, f.op)
    decreases |fs|
  {
    if fs != [] {
      QueueHasNoCallback(h, stackUp, i + 1, fs[1..]);
      var f := fs[0];
      assert h(i, f) == NotHandled <==> !stackUp(i) || !HasCallback(f.svcId, f.op);
      assert stackUp(i);
    }
  }

  /** Every dispatched frame of the core service, or with an opcode below 0x80, gets into the queue. */
  lemma {:induction false} OthersAreQueued(h: Option<Handler>, i: nat, fs: seq<Frame>, k: nat)
    requires k < Dispatched(h, i, fs) && (fs[k].svcId == 0 || fs[k].op < 0x80)
    ensures fs[k] in Queued(h, i, fs)
    decreases |fs|
  {
    if k > 0 {
      OthersAreQueued(h, i + 1, fs[1..], k - 1);
    }
  }

  lemma {:induction false} DispatchedSurvives(h: Option<Handler>, i: nat, fs: seq<Frame>)
    ensures Survives(h, i, fs[..Dispatched(h, i, fs)])
    decreases |fs|
  {
    if fs != [] && RouteOf(h, i, fs[0]) != Fatal {
      DispatchedSurvives(h, i + 1, fs[1..]);
      FirstOf(fs, Dispatched(h, i, fs));
    }
  }

  /**
   From bytes to the queue: however the stream is cut up, with timeouts between frames only, and up to a
   callback that raises, the queue receives the responses in order if and only if the stack is up and the
   tables have a callback for every event.
   */
  lemma StreamToQueue(s: seq<Delivery>, fs: seq<Frame>, h: Handler, stackUp: nat -> bool)
    requires Open(s) && (forall f <- fs :: f.Valid())
    requires Content(s) == WireAll(fs) && OnBoundaries(TimeoutsAt(s, 0), 0, fs)
    requires FollowsTables(h, stackUp)
    ensures var got := fs[..Dispatched(Some(h), 0, fs)];
            Queued(Some(h), 0, ReceiveAll(s).frames) == Responses(got) <==> AllInTables(stackUp, 0, got)
  {
    Reassembly(s, fs);
    QueueHoldsResponses(Some(h), 0, fs);
    DispatchedSurvives(Some(h), 0, fs);
    TablesHandle(h, stackUp, 0, fs[..Dispatched(Some(h), 0, fs)]);
  }

  // ---- Commands and their responses over whole runs ----

  /**
   What happens at the host, in order: a command is sent, a frame arrives, a read returns. After a
   callback raised, frames arrive in vain.
   */
  datatype Action = Send(cmd: Cmd) | Arrive(frame: Frame) | Read

  /** The service and the opcode of a command, which its response repeats. */
  datatype Cmd = Cmd(svcId: byte, op: byte)

  datatype Host = Host(arrived: seq<Frame>, queue: seq<Frame>, taken: seq<Frame>, sent: seq<Cmd>)

  /** The device is reset at the start, which it answers with the IUT-ready event. */
  const READY := Cmd(BTP_SERVICE_ID_CORE, 0x80)
  const INIT := Host([], [], [], [READY])

  function Step(h: Option<Handler>, s: Host, a: Action): Host {
    match a
    case Send(cmd) => s.(sent := s.sent + [cmd])
    case Arrive(f) =>
      s.(arrived := s.arrived + [f],
         queue := if Survives(h, 0, s.arrived) && RouteOf(h, |s.arrived|, f).ToQueue? then s.queue + [f] else s.queue)
    case Read =>
      if s.queue == [] then s
      else s.(queue := s.queue[1..], taken := s.taken + [s.queue[0]])
  }

  function Run(h: Option<Handler>, tr: seq<Action>): Host {
    if tr == [] then INIT else Step(h, Run(h, tr[..|tr| - 1]), tr[|tr| - 1])
  }

  /** What was read and what is queued are what was queued so far, in order. */
  lemma {:induction false} RunIsFifo(h: Option<Handler>, tr: seq<Action>)
    ensures Run(h, tr).taken + Run(h, tr).queue == Queued(h, 0, Run(h, tr).arrived)
  {
    if tr != [] {
      var p, a := Run(h, tr[..|tr| - 1]), tr[|tr| - 1];
      RunIsFifo(h, tr[..|tr| - 1]);
      match a {
        case Send(_) =>
        case Arrive(f) =>
          QueuedSnoc(h, 0, p.arrived, f);
          assert p.taken + (p.queue + [f]) == p.taken + p.queue + [f];
          assert p.taken + p.queue + [] == p.taken + p.queue;
        case Read =>
          if p.queue != [] {
            assert p.taken + [p.queue[0]] + p.queue[1..] == p.taken + p.queue;
          }
      }
    }
  }

  /** The frames that were dispatched. */
  function Got(h: Option<Handler>, s: Host): seq<Frame> {
    s.arrived[..Dispatched(h, 0, s.arrived)]
  }

  /**
   In every run, the reads so far are the responses so far in order if and only if none of
   them returned an event that had no callback.
   */
  lemma ReadsArePaired(h: Option<Handler>, tr: seq<Action>)
    ensures var s := Run(h, tr);
            s.taken <= Responses(Got(h, s)) <==> forall f <- s.taken :: !IsEvent(f)
  {
    var s := Run(h, tr);
    RunIsFifo(h, tr);
    ResponsesAreQueued(h, 0, s.arrived);
    ResponsesConcat(s.taken, s.queue);
    ResponsesAreNotEvents(Got(h, s));
    if forall f <- s.taken :: !IsEvent(f) {
      AllResponses(s.taken);
    }
    if s.taken <= Responses(Got(h, s)) {
      forall f | f in s.taken ensures !IsEvent(f) {
        var k :| 0 <= k < |s.taken| && s.taken[k] == f;
        assert Responses(Got(h, s))[k] == f;
      }
    }
  }

  /** The k-th frame is put on the queue. */
  predicate Enters(h: Option<Handler>, fs: seq<Frame>, k: nat)
    requires k < |fs|
  {
    Survives(h, 0, fs[..k]) && RouteOf(h, k, fs[k]).ToQueue?
  }

  function QueuedBefore(h: Option<Handler>, fs: seq<Frame>, k: nat): nat
    requires k < |fs|
  {
    |Queued(h, 0, fs[..k])|
  }

  lemma {:induction false} PlaceOf(h: Option<Handler>, fs: seq<Frame>, k: nat)
    requires k < |fs| && Enters(h, fs, k)
    ensures QueuedBefore(h, fs, k) < |Queued(h, 0, fs)| && Queued(h, 0, fs)[QueuedBefore(h, fs, k)] == fs[k]
    decreases |fs|
  {
    var n := |fs| - 1;
    var p := fs[..n];
    assert fs == p + [fs[n]];
    QueuedSnoc(h, 0, p, fs[n]);
    if k < n {
      assert p[..k] == fs[..k];
      PlaceOf(h, p, k);
    }
  }

  lemma {:induction false} AtPlace(h: Option<Handler>, fs: seq<Frame>, q: nat) returns (k: nat)
    requires q < |Queued(h, 0, fs)|
    ensures k < |fs| && Enters(h, fs, k) && QueuedBefore(h, fs, k) == q
    decreases |fs|
  {
    var n := |fs| - 1;
    var p := fs[..n];
    assert fs == p + [fs[n]];
    QueuedSnoc(h, 0, p, fs[n]);
    if q < |Queued(h, 0, p)| {
      k := AtPlace(h, p, q);
      assert p[..k] == fs[..k];
    } else {
      k := n;
    }
  }

  /**
   The same in terms of what arrived: the reads are the responses if and only if every event without a
   callback had at least as many frames queued before it as were read.
   */
  lemma ReadsArePairedByArrival(h: Option<Handler>, tr: seq<Action>)
    ensures var s := Run(h, tr);
            s.taken <= Responses(Got(h, s)) <==>
            forall k | 0 <= k < |s.arrived| && IsEvent(s.arrived[k]) && Enters(h, s.arrived, k) ::
              QueuedBefore(h, s.arrived, k) >= |s.taken|
  {
    var s := Run(h, tr);
    var all := Queued(h, 0, s.arrived);
    ReadsArePaired(h, tr);
    RunIsFifo(h, tr);
    if forall f <- s.taken :: !IsEvent(f) {
      forall k | 0 <= k < |s.arrived| && IsEvent(s.arrived[k]) && Enters(h, s.arrived, k)
        ensures QueuedBefore(h, s.arrived, k) >= |s.taken|
      {
        PlaceOf(h, s.arrived, k);
        assert forall q | 0 <= q < |s.taken| :: s.taken[q] in s.taken && all[q] == s.taken[q];
      }
    } else {
      var q :| 0 <= q < |s.taken| && IsEvent(s.taken[q]);
      var k := AtPlace(h, s.arrived, q);
      PlaceOf(h, s.arrived, k);
      assert all[q] == s.taken[q];
    }
  }

  /** The frame passes `btp_hdr_check` for the command, with its opcode named. */
  predicate IsAnswerTo(f: Frame, cmd: Cmd) {
    BtpHdrCheck(f, cmd.svcId, Some(cmd.op)).Ok?
  }

  /** Commands have opcodes below those of events; the reset is waited for as a core event. */
  predicate IsCommand(cmd: Cmd) {
    cmd == READY || 0 < cmd.op < 0x80
  }

  /** The host's own discipline: it sends a command, and reads one frame, which it checks against that command. */
  predicate Checks(h: Option<Handler>, tr: seq<Action>) {
    tr == [] ||
    var p, a := Run(h, tr[..|tr| - 1]), tr[|tr| - 1];
    && Checks(h, tr[..|tr| - 1])
    && match a
       case Send(cmd) => IsCommand(cmd) && |p.taken| == |p.sent|
       case Read => p.queue != [] ==> |p.taken| < |p.sent| && IsAnswerTo(p.queue[0], p.sent[|p.sent| - 1])
       case Arrive(_) => true
  }

  /** Each read has the header of the command with its index. */
  predicate HeadersMatch(s: Host) {
    && |s.taken| <= |s.sent| <= |s.taken| + 1
    && (forall cmd <- s.sent :: IsCommand(cmd))
    && forall k | 0 <= k < |s.taken| :: IsAnswerTo(s.taken[k], s.sent[k])
  }

  lemma {:induction false} ChecksKeepHeaders(h: Option<Handler>, tr: seq<Action>)
    requires Checks(h, tr)
    ensures HeadersMatch(Run(h, tr))
  {
    if tr != [] {
      ChecksKeepHeaders(h, tr[..|tr| - 1]);
    }
  }

  /**
   In every run of such a host, whatever the device sends, the k-th read is the k-th response that was
   received, and has the service and the opcode of the k-th command.
   */
  lemma CheckedReadsAnswer(h: Option<Handler>, tr: seq<Action>)
    requires Checks(h, tr)
    ensures var s := Run(h, tr);
            && s.taken <= Responses(Got(h, s)) && |s.taken| <= |s.sent|
            && forall k | 0 <= k < |s.taken| :: s.taken[k].svcId == s.sent[k].svcId && s.taken[k].op == s.sent[k].op
  {
    var s := Run(h, tr);
    ReadsArePaired(h, tr);
    ChecksKeepHeaders(h, tr);
    forall k | 0 <= k < |s.taken| ensures !IsEvent(s.taken[k]) && s.taken[k].op == s.sent[k].op {
      assert IsAnswerTo(s.taken[k], s.sent[k]) && s.sent[k] in s.sent;
      if s.sent[k] != READY && IsEvent(s.taken[k]) {
        MispairingNoticed(s.taken[k], s.sent[k].svcId, s.sent[k].op, true);
      }
    }
  }

  lemma {:induction false} AllResponses(fs: seq<Frame>)
    requires forall f <- fs :: !IsEvent(f)
    ensures Responses(fs) == fs
  {
    if fs != [] {
      assert !IsEvent(fs[0]);
      AllResponses(fs[1..]);
    }
  }

  /**
   The device answers each command once, and the host reads that answer before it sends the next:
   the discipline of the command functions.
   */
  predicate Disciplined(h: Option<Handler>, tr: seq<Action>) {
    tr == [] ||
    var p, a := Run(h, tr[..|tr| - 1]), tr[|tr| - 1];
    Disciplined(h, tr[..|tr| - 1]) && Allowed(h, p, a)
  }

  predicate Allowed(h: Option<Handler>, p: Host, a: Action) {
    match a
    case Send(_) => |p.taken| == |p.sent|
    case Read => |p.taken| < |p.sent| && p.queue != []
    case Arrive(f) =>
      if IsEvent(f) then RouteOf(h, |p.arrived|, f) == ToHandler else |Responses(p.arrived)| < |p.sent|
  }

  /** What was read and what waits are the responses so far, of which there is one per command at most. */
  predicate Paired(h: Option<Handler>, s: Host) {
    && Survives(h, 0, s.arrived)
    && s.taken + s.queue == Responses(s.arrived)
    && |s.queue| <= 1 && |s.taken| + |s.queue| <= |s.sent| <= |s.taken| + 1
  }

  lemma ArrivalStaysPaired(h: Option<Handler>, p: Host, f: Frame)
    requires Paired(h, p) && Allowed(h, p, Arrive(f))
    ensures Paired(h, Step(h, p, Arrive(f)))
  {
    ResponsesConcat(p.arrived, [f]);
    assert Responses([f]) == if IsEvent(f) then [] else [f];
    SurvivesConcat(h, 0, p.arrived, [f]);
    if !IsEvent(f) {
      assert p.taken + (p.queue + [f]) == p.taken + p.queue + [f];
    }
  }

  lemma StepStaysPaired(h: Option<Handler>, p: Host, a: Action)
    requires Paired(h, p) && Allowed(h, p, a)
    ensures Paired(h, Step(h, p, a))
  {
    match a {
      case Send(_) =>
      case Arrive(f) => ArrivalStaysPaired(h, p, f);
      case Read =>
        assert p.taken + [p.queue[0]] + p.queue[1..] == p.taken + p.queue;
    }
  }

  lemma {:induction false} DisciplinedStaysPaired(h: Option<Handler>, tr: seq<Action>)
    requires Disciplined(h, tr)
    ensures Paired(h, Run(h, tr))
  {
    if tr != [] {
      DisciplinedStaysPaired(h, tr[..|tr| - 1]);
      StepStaysPaired(h, Run(h, tr[..|tr| - 1]), tr[|tr| - 1]);
    }
  }

  lemma {:induction false} DisciplinedSoFar(h: Option<Handler>, tr: seq<Action>, j: nat)
    requires Disciplined(h, tr) && j <= |tr|
    ensures Disciplined(h, tr[..j])
    decreases |tr|
  {
    if j == |tr| {
      assert tr[..j] == tr;
    } else {
      DisciplinedSoFar(h, tr[..|tr| - 1], j);
      assert tr[..|tr| - 1][..j] == tr[..j];
    }
  }

  /**
   In a disciplined run the k-th read returns the k-th response, and while the k-th command is the last one
   sent, however handled events interleave. Here the read is step j of the run, and k counts from 0.
   */
  lemma KthReadIsKthResponse(h: Option<Handler>, tr: seq<Action>, j: nat)
    requires Disciplined(h, tr) && j < |tr| && tr[j] == Read
    ensures var p := Run(h, tr[..j]);
            var k := |p.taken|;
            && |p.sent| == k + 1 && k < |Responses(p.arrived)|
            && Run(h, tr[..j + 1]).taken == p.taken + [Responses(p.arrived)[k]]
  {
    DisciplinedSoFar(h, tr, j);
    DisciplinedSoFar(h, tr, j + 1);
    DisciplinedStaysPaired(h, tr[..j]);
    assert tr[..j + 1][..j] == tr[..j];
    var p := Run(h, tr[..j]);
    assert (p.taken + p.queue)[|p.taken|] == p.queue[0];
  }

  /** `btp_hdr_check`. An expected opcode of 0 is not checked, like a missing one. */
  function BtpHdrCheck(f: Frame, expSvcId: byte, expOp: Option<byte>): Result<()> {
    if f.svcId != expSvcId then Err(InvalidServiceId)
    else if f.op == BTP_STATUS then Err(InvalidStatus)
    else if expOp.Some? && expOp.value != 0 && expOp.value != f.op then Err(InvalidOpcode)
    else Ok(())
  }

  /**
   The check that follows a read notices an event in place of the response to a command, unless the
   command does not name its opcode and the event is of the same service.
   */
  lemma MispairingNoticed(f: Frame, svcId: byte, op: byte, named: bool)
    requires IsEvent(f) && 0 < op < 0x80
    ensures BtpHdrCheck(f, svcId, if named then Some(op) else None).Ok? <==> !named && f.svcId == svcId
  {
  }

  lemma RunStep(h: Option<Handler>, tr: seq<Action>, a: Action)
    ensures Run(h, tr + [a]) == Step(h, Run(h, tr), a)
  {
    assert (tr + [a])[..|tr|] == tr;
  }

  lemma ReadyIsRead(h: Option<Handler>, ready: Frame, cmd: Cmd)
    requires !IsEvent(ready)
    ensures Run(h, [Arrive(ready), Read, Send(cmd)]) == Host([ready], [], [ready], [READY, cmd])
  {
    RunStep(h, [], Arrive(ready));
    RunStep(h, [Arrive(ready)], Read);
    RunStep(h, [Arrive(ready), Read], Send(cmd));
    assert [] + [Arrive(ready)] == [Arrive(ready)];
    assert [Arrive(ready)] + [Read] == [Arrive(ready), Read];
    assert [Arrive(ready), Read] + [Send(cmd)] == [Arrive(ready), Read, Send(cmd)];
    assert Step(h, INIT, Arrive(ready)) == Host([ready], [ready], [], [READY]);
  }

  lemma BothAreQueued(h: Option<Handler>, s: Host, ready: Frame, ev: Frame, rsp: Frame)
    requires s.arrived == [ready] && s.queue == [] && s.taken == [ready]
    requires !IsEvent(ready) && RouteOf(h, 1, ev) == ToQueue
    ensures Step(h, Step(h, Step(h, s, Arrive(ev)), Arrive(rsp)), Read).taken == [ready, ev]
  {
    assert Survives(h, 0, [ready]);
    assert Step(h, s, Arrive(ev)).queue == [ev];
  }

  /** An event without a callback that arrives before a response is read in its place. */
  lemma UnhandledEventBreaksPairing(h: Option<Handler>, ready: Frame, cmd: Cmd, ev: Frame, rsp: Frame)
    requires !IsEvent(ready) && IsEvent(ev) && !IsEvent(rsp)
    requires RouteOf(h, 1, ev) == ToQueue
    ensures Run(h, [Arrive(ready), Read, Send(cmd), Arrive(ev), Arrive(rsp), Read]).taken == [ready, ev]
  {
    var tr := [Arrive(ready), Read, Send(cmd)];
    ReadyIsRead(h, ready, cmd);
    RunStep(h, tr, Arrive(ev));
    RunStep(h, tr + [Arrive(ev)], Arrive(rsp));
    RunStep(h, tr + [Arrive(ev), Arrive(rsp)], Read);
    BothAreQueued(h, Run(h, tr), ready, ev, rsp);
    assert tr + [Arrive(ev)] + [Arrive(rsp)] == tr + [Arrive(ev), Arrive(rsp)];
    assert tr + [Arrive(ev), Arrive(rsp)] + [Read]
        == [Arrive(ready), Read, Send(cmd), Arrive(ev), Arrive(rsp), Read];
  }
}
