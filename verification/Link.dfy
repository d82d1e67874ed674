/**
 A command and its response over the link: the device's answer is framed, cut up and mixed with events,
 and read back through the socket, the receive thread and the response queue.
 */
module Link {
  import opened Bytes
  import opened Text
  import opened Sorting
  import opened GattCodec
  import opened Frames
  import opened Streams
  import opened Sockets
  import opened Workers
  import opened Server

  function OpOf(q: Query): byte {
    match q
    case AllPrimary => 0x0b
    case FindIncluded(_, _) => 0x0d
    case AllChrc(_, _) => 0x0e
    case AllDesc(_, _) => 0x10
  }

  // ---- The answers fit frames ----

  lemma EntryIsShort(e: RawEntry)
    requires Encodable(e) && |e.uuid| <= 16
    ensures |EncodeEntry(e)| <= 23
  {
  }

  lemma {:induction false} EntriesAreShort(es: seq<RawEntry>)
    requires forall e <- es :: Encodable(e) && |e.uuid| <= 16
    ensures |EncodeEntries(es)| <= 23 * |es|
  {
    if es != [] {
      EntryIsShort(es[0]);
      EntriesAreShort(es[1..]);
    }
  }

  lemma {:induction false} AnswerUuids(T: Table, q: Query, ks: seq<int>)
    requires forall i | 0 <= i < |ks| :: ks[i] in T
    ensures forall e <- AnswerFrom(T, q, ks) :: |e.uuid| <= 16
  {
    if ks != [] {
      AnswerUuids(T, q, ks[1..]);
      assert ks[0] in T && InRange(ks[0]) && IsUuid(T[ks[0]].uuid);
    }
  }

  lemma AnswerIsShort(T: Table, q: Query)
    ensures Ask(T, q).Ok? ==> |Ask(T, q).value| < 0x1_0000
  {
    if Ask(T, q).Ok? {
      AnswerUuids(T, q, Sorted(T.Keys));
      EntriesAreShort(Answer(T, q));
    }
  }

  /** What the device sends in response: its answer, or a status frame. */
  function Answered(T: Table, q: Query): (f: Frame)
    ensures f.Valid() && !IsEvent(f)
  {
    AnswerIsShort(T, q);
    match Ask(T, q)
    case Ok(data) => Frame(BTP_SERVICE_ID_GATT, OpOf(q), 0, data)
    case Err(_) => Frame(BTP_SERVICE_ID_GATT, BTP_STATUS, 0, [0x01])
  }

  // ---- What arrives ----

  /** An event with a callback. */
  predicate IsHandled(f: Frame) {
    f.Valid() && IsEvent(f) && HasCallback(f.svcId, f.op)
  }

  /**
   After a command arrive its response and any handled events before and behind it, in any pieces, with
   timeouts between the frames only.
   */
  ghost predicate Carries(s: seq<Delivery>, rsp: Frame) {
    Open(s) && exists before, after :: IsTraffic(s, before, rsp, after)
  }

  predicate IsTraffic(s: seq<Delivery>, before: seq<Frame>, rsp: Frame, after: seq<Frame>) {
    && (forall f <- before :: IsHandled(f)) && (forall f <- after :: IsHandled(f))
    && (forall f <- before + ([rsp] + after) :: f.Valid())
    && Content(s) == WireAll(before + ([rsp] + after))
    && OnBoundaries(TimeoutsAt(s, 0), 0, before + ([rsp] + after))
  }

  /** What arrives after the n-th command. */
  type Arrivals = (nat, Query) -> seq<Delivery>

  ghost predicate Serves(T: Table, arrive: Arrivals) {
    forall n: nat, q: Query | q.Packable() :: Carries(arrive(n, q), Answered(T, q))
  }

  ghost predicate HandlesAll(h: Handler) {
    forall i, f | IsHandled(f) :: h(i, f) == Handled
  }

  /** There is such a link to every table: one piece for each response. */
  lemma LinkExists(T: Table)
    ensures exists arrive :: Serves(T, arrive)
  {
    var arrive: Arrivals := (n, q) => [Chunk(Answered(T, q).Wire())];
    forall n: nat, q: Query | q.Packable() ensures Carries(arrive(n, q), Answered(T, q)) {
      var f, s := Answered(T, q), arrive(n, q);
      assert s[1..] == [] && Content(s) == f.Wire() + [];
      assert [] + ([f] + []) == [f] && WireAll([f]) == f.Wire() + [];
      assert IsTraffic(s, [], f, []);
    }
    assert Serves(T, arrive);
  }

  lemma {:induction false} EventsVanish(h: Handler, i: nat, events: seq<Frame>, fs: seq<Frame>)
    requires HandlesAll(h) && forall f <- events :: IsHandled(f)
    ensures Queued(Some(h), i, events + fs) == Queued(Some(h), i + |events|, fs)
    ensures Survives(Some(h), i, events + fs) <==> Survives(Some(h), i + |events|, fs)
    decreases |events|
  {
    if events == [] {
      assert events + fs == fs;
    } else {
      assert (events + fs)[0] == events[0] && (events + fs)[1..] == events[1..] + fs;
      assert events[0] in events;
      EventsVanish(h, i + 1, events[1..], fs);
    }
  }

  /** Of all that arrives, the queue gets the response. */
  lemma ResponseIsQueued(h: Handler, s: seq<Delivery>, rsp: Frame)
    requires HandlesAll(h) && Carries(s, rsp) && rsp.Valid() && !IsEvent(rsp)
    ensures Queued(Some(h), 0, ReceiveAll(s).frames) == [rsp] && Survives(Some(h), 0, ReceiveAll(s).frames)
  {
    var before, after :| IsTraffic(s, before, rsp, after);
    var fs := before + ([rsp] + after);
    assert forall f <- fs :: f == rsp || f in before || f in after;
    Reassembly(s, fs);
    EventsVanish(h, 0, before, [rsp] + after);
    assert ([rsp] + after)[1..] == after && after + [] == after;
    EventsVanish(h, |before| + 1, after, []);
  }

  // ---- The host ----

  class Host {
    const worker: BtpWorker
    const sock: BtpSocket
    const arrive: Arrivals
    var sent: nat

    ghost predicate Ready(T: Table)
      reads this, worker, sock
    {
      && worker.running && worker.rxQueue == [] && sock.conn == []
      && worker.eventHandlerCb.Some? && HandlesAll(worker.eventHandlerCb.value)
      && Serves(T, arrive)
    }

    constructor (arrive: Arrivals, handler: Handler, ghost T: Table)
      requires Serves(T, arrive) && HandlesAll(handler)
      ensures Ready(T) && fresh(worker) && fresh(sock)
    {
      this.arrive, sent := arrive, 0;
      worker := new BtpWorker();
      sock := new BtpSocket([]);
      new;
      worker.RegisterEventHandler(handler);
      worker.Accept();
    }

    /**
     A command, and the payload of its response: it is packed and sent, the frames that arrive are received,
     one is read from the queue, and its header is checked.
     */
    method Exchange(q: Query, ghost T: Table) returns (r: Result<seq<byte>>)
      requires Ready(T)
      modifies this, worker, sock
      ensures Ready(T) && r == Ask(T, q)
    {
      if !q.Packable() {
        return Err(StructError);
      }
      sock.conn := arrive(sent, q);
      sent := sent + 1;
      ResponseIsQueued(worker.eventHandlerCb.value, sock.conn, Answered(T, q));
      worker.RxTask(sock);
      var rsp := worker.Read();
      var ok := BtpHdrCheck(rsp.value, BTP_SERVICE_ID_GATT, Some(OpOf(q)));
      if ok.Err? {
        return Err(ok.error);
      }
      return Ok(rsp.value.data);
    }
  }

  /** The opcodes of the commands. */
  lemma Opcodes(s: int, e: int)
    ensures OpOf(AllPrimary) == 11 && OpOf(FindIncluded(s, e)) == 13
    ensures OpOf(AllChrc(s, e)) == 14 && OpOf(AllDesc(s, e)) == 16
  {
  }
}
