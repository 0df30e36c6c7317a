/** What holds over whole runs of a connection. */
module VmsRuns {
  import opened VmsFrames
  import opened VmsLink

  datatype Event = Event(step: Step, now: int)

  ghost predicate IsRun(w: World, interval: nat, events: seq<Event>)
    decreases |events|
  {
    events == [] ||
    (Possible(w.link, events[0].step) && IsRun(Next(w, interval, events[0].step, events[0].now), interval, events[1..]))
  }

  ghost function Run(w: World, interval: nat, events: seq<Event>): World
    requires IsRun(w, interval, events)
    decreases |events|
  {
    if events == [] then w else Run(Next(w, interval, events[0].step, events[0].now), interval, events[1..])
  }

  /** A link just started at time `now`: connected at once, or waiting for the connection to complete. */
  function Started(connected: bool, now: int): World {
    World(Link(if connected then Connected else Connecting, [], [], map[], 0, now, now, !connected),
          History([], [], [], [], multiset{}, multiset{}, multiset{}, multiset{}, multiset{}, now))
  }

  // ----- what frames and timers leave alone -----

  lemma {:induction false} TakeFramesEffect(w: World, fs: seq<Frame>, now: int)
    ensures var w1 := TakeFrames(w, fs, now);
            && w1.link == w.link.(lastRecv := w1.link.lastRecv, waits := w1.link.waits)
            && w1.hist == w.hist.(delivered := w1.hist.delivered, answered := w1.hist.answered)
            && w1.hist.delivered == w.hist.delivered + Payload(fs)
            && w1.link.lastRecv in {w.link.lastRecv, now}
    decreases |fs|
  {
    if fs != [] {
      TakeFramesEffect(TakeFrame(w, fs[0], now), fs[1..], now);
      assert w.hist.delivered + [fs[0]] + Payload(fs[1..]) == w.hist.delivered + ([fs[0]] + Payload(fs[1..]));
    }
  }

  /** The frames that are not heartbeats. */
  function Payload(fs: seq<Frame>): seq<Frame> {
    if fs == [] then []
    else (if MsgType(fs[0]) == TYPE_HEARTBEAT then [] else [fs[0]]) + Payload(fs[1..])
  }

  lemma {:induction false} PayloadConcat(a: seq<Frame>, b: seq<Frame>)
    ensures Payload(a + b) == Payload(a) + Payload(b)
  {
    if a == [] {
      assert a + b == b;
    } else {
      assert (a + b)[1..] == a[1..] + b;
      PayloadConcat(a[1..], b);
    }
  }

  // ----- sending -----

  function Unsent(queue: seq<Pending>): seq<byte> {
    if queue == [] then []
    else (if queue[0].sent <= |queue[0].msg| then queue[0].msg[queue[0].sent..] else []) + Unsent(queue[1..])
  }

  lemma {:induction false} UnsentSnoc(queue: seq<Pending>, p: Pending)
    requires p.sent <= |p.msg|
    ensures Unsent(queue + [p]) == Unsent(queue) + p.msg[p.sent..]
  {
    if queue == [] {
      assert [] + [p] == [p] && [p][1..] == [];
      assert p.msg[p.sent..] + [] == p.msg[p.sent..];
    } else {
      UnsentSnoc(queue[1..], p);
      UnsentHead(queue, p);
    }
  }

  lemma UnsentHead(queue: seq<Pending>, p: Pending)
    requires queue != [] && p.sent <= |p.msg|
    requires Unsent(queue[1..] + [p]) == Unsent(queue[1..]) + p.msg[p.sent..]
    ensures Unsent(queue + [p]) == Unsent(queue) + p.msg[p.sent..]
  {
    var q := queue[0];
    assert (queue + [p])[1..] == queue[1..] + [p];
    Assoc(if q.sent <= |q.msg| then q.msg[q.sent..] else [], Unsent(queue[1..]), p.msg[p.sent..]);
  }

  /** Bytes on the socket, then the unsent rest of the queue, are the accepted messages in order (until the queue is
      thrown away); the queue is bounded and holds only unfinished messages; and a link listens for EPOLLOUT exactly
      while it waits for its connection or has work left. */
  ghost predicate Conserved(w: World) {
    var l, h := w.link, w.hist;
    && (if l.flag == Closed then h.wire <= h.accepted else h.wire + Unsent(l.queue) == h.accepted)
    && |l.queue| <= MAX_QUEUE_SIZE
    && (forall p | p in l.queue :: p.sent < |p.msg| == PacketLength(p.msg))
    && (l.flag == Connected ==> (l.writable <==> l.queue != []))
    && (l.flag == Connecting ==> l.writable) && (l.flag == Closed ==> !l.writable)
    && (l.flag in {Idle, Connecting, Closed} ==> l.queue == [])
  }

  lemma SendConserves(w: World, msg: Frame, timeout: nat, res: SendResult, now: int)
    requires Conserved(w) && Taken(res) <= |msg|
    ensures Conserved(SendMsg(w, msg, timeout, res, now).0)
    ensures SendMsg(w, msg, timeout, res, now).0.link.flag in {w.link.flag, Closing}
  {
    var l, h := w.link, w.hist;
    if l.flag == Connected && PacketLength(msg) == |msg| {
      if l.queue == [] {
        FirstPart(h.wire, msg, Taken(res), timeout);
      } else if |l.queue| < MAX_QUEUE_SIZE {
        UnsentSnoc(l.queue, Pending(msg, 0, timeout, 0));
        assert msg[0..] == msg;
        Assoc(h.wire, Unsent(l.queue), msg);
      }
    }
  }

  /** A message sent at once: the part that went out and the part that is queued. */
  lemma FirstPart(wire: seq<byte>, msg: Frame, n: nat, timeout: nat)
    requires n <= |msg|
    ensures (wire + msg[..n]) + Unsent([Pending(msg, n, timeout, 0)]) == wire + msg
    ensures n == |msg| ==> (wire + msg[..n]) + Unsent([]) == wire + msg
    ensures wire + Unsent([]) == wire
  {
    assert Unsent([Pending(msg, n, timeout, 0)]) == msg[n..] + [];
    assert msg[..n] + msg[n..] == msg;
  }

  /** The conservation part alone, which also holds between the turns of handleSend's loop. */
  ghost predicate Flowing(w: World) {
    && w.link.flag == Connected && |w.link.queue| <= MAX_QUEUE_SIZE
    && w.hist.wire + Unsent(w.link.queue) == w.hist.accepted
    && forall p | p in w.link.queue :: p.sent < |p.msg| == PacketLength(p.msg)
  }

  lemma SendPartFlows(w: World, n: nat)
    requires Flowing(w) && w.link.queue != [] && w.link.queue[0].sent + n < |w.link.queue[0].msg|
    ensures Flowing(SendPart(w, n)) && SendPart(w, n).link.writable
  {
    var p := w.link.queue[0];
    DrainBytes(w.hist.wire, p.msg, p.sent, n, Unsent(w.link.queue[1..]));
    assert ([p.(sent := p.sent + n)] + w.link.queue[1..])[1..] == w.link.queue[1..];
  }

  lemma SendRestFlows(w: World, now: int)
    requires Flowing(w) && w.link.queue != []
    ensures Flowing(SendRest(w, now)) && SendRest(w, now).link.queue == w.link.queue[1..]
  {
    var p := w.link.queue[0];
    assert p in w.link.queue;
    assert Slice(p.msg, p.sent, |p.msg|) == p.msg[p.sent..];
    Assoc(w.hist.wire, p.msg[p.sent..], Unsent(w.link.queue[1..]));
    assert forall q | q in w.link.queue[1..] :: q in w.link.queue;
  }

  lemma Assoc(a: seq<byte>, b: seq<byte>, c: seq<byte>)
    ensures a + (b + c) == (a + b) + c
  {
  }

  lemma {:induction false} DrainConserves(w: World, results: seq<SendResult>, now: int)
    requires Flowing(w) && !w.link.writable
    ensures var (w1, code) := Drain(w, results, now);
            Flowing(w1) && (code == Ok || code == Fail) && (code == Ok ==> (w1.link.writable <==> w1.link.queue != []))
    decreases |w.link.queue|
  {
    if w.link.queue != [] {
      var p, res := w.link.queue[0], NextResult(results);
      if !res.Broken? {
        if p.sent + Taken(res) < |p.msg| {
          SendPartFlows(w, Taken(res));
        } else {
          SendRestFlows(w, now);
          DrainConserves(SendRest(w, now), if results == [] then [] else results[1..], now);
        }
      }
    }
  }

  lemma DrainBytes(wire: seq<byte>, msg: seq<byte>, sent: nat, n: nat, more: seq<byte>)
    requires sent + n <= |msg|
    ensures wire + (msg[sent..] + more) == (wire + msg[sent..sent + n]) + (msg[sent + n..] + more)
  {
    assert msg[sent..] == msg[sent..sent + n] + msg[sent + n..];
  }

  lemma RecvConserves(w: World, res: RecvResult, now: int)
    requires Conserved(w)
    ensures Conserved(CloseOnFail(HandleRecv(w, res, now)))
  {
    if w.link.flag == Connected && |w.link.buff| < MAX_RECV_BUFF && res.Chunk? {
      ReceiveSendsNothing(World(w.link.(misses := 0), w.hist.(resetAt := now)), res.bytes, now);
    }
    CloseConserves(HandleRecv(w, res, now).0);
  }

  lemma ReceiveSendsNothing(w: World, c: seq<byte>, now: int)
    ensures var w1 := Receive(w, c, now).0;
            && w1.hist.wire == w.hist.wire && w1.hist.accepted == w.hist.accepted && w1.link.flag == w.link.flag
            && w1.link.queue == w.link.queue && w1.link.writable == w.link.writable
  {
    TakeFramesEffect(w.(hist := w.hist.(received := w.hist.received + c)), Split(w.link.buff + c).frames, now);
  }

  lemma WritableConserves(w: World, connects: bool, results: seq<SendResult>, now: int)
    requires Conserved(w)
    ensures Conserved(CloseOnFail(HandleSend(w, connects, results, now)))
  {
    if w.link.flag == Connected {
      DrainConserves(w.(link := w.link.(writable := false)), results, now);
    }
    CloseConserves(HandleSend(w, connects, results, now).0);
  }

  lemma CheckRespConserves(w: World, interval: nat, now: int)
    requires Conserved(w)
    ensures Conserved(CheckResp(w, interval, now))
  {
  }

  lemma HeartbeatConserves(w: World, interval: nat, res: SendResult, now: int)
    requires Conserved(w) && Taken(res) <= HEADER_SIZE
    ensures Conserved(SendHeartbeat(w, interval, res, now))
  {
    SendConserves(w.(link := w.link.(lastSend := now)), Heartbeat(), 0, res, now);
  }

  lemma TickConserves(w: World, interval: nat, res: SendResult, now: int)
    requires Conserved(w) && Taken(res) <= HEADER_SIZE
    ensures Conserved(HandleTimeout(w, interval, res, now))
  {
    var l := CountMisses(w.link, interval, now);
    HeartbeatConserves(w.(link := l), interval, res, now);
    CheckRespConserves(SendHeartbeat(w.(link := l), interval, res, now), interval, now);
  }

  lemma StepConserves(w: World, interval: nat, step: Step, now: int)
    requires Conserved(w) && Possible(w.link, step)
    ensures Conserved(Next(w, interval, step, now))
  {
    match step
    case Send(msg, timeout, res) => SendConserves(w, msg, timeout, res, now);
    case Readable(res) => RecvConserves(w, res, now);
    case Writable(connects, results) => WritableConserves(w, connects, results, now);
    case Tick(res) => TickConserves(w, interval, res, now);
    case ErrorEvent => CloseConserves(w);
    case Stop => CloseConserves(w);
  }

  /** Closing throws the queue away: what is on the wire stays a prefix of what was accepted. */
  lemma CloseConserves(w: World)
    requires w.link.flag != Closed ==> w.hist.wire + Unsent(w.link.queue) == w.hist.accepted
    requires w.link.flag == Closed ==> w.hist.wire <= w.hist.accepted && w.link.queue == [] && !w.link.writable
    ensures Conserved(HandleClose(w)) && Conserved(StopConn(w))
  {
  }

  lemma {:induction false} RunConserves(w: World, interval: nat, events: seq<Event>)
    requires Conserved(w) && IsRun(w, interval, events)
    ensures Conserved(Run(w, interval, events))
    decreases |events|
  {
    if events != [] {
      StepConserves(w, interval, events[0].step, events[0].now);
      RunConserves(Next(w, interval, events[0].step, events[0].now), interval, events[1..]);
    }
  }

  lemma StartConserves(connected: bool, start: int, interval: nat, events: seq<Event>)
    requires IsRun(Started(connected, start), interval, events)
    ensures Conserved(Run(Started(connected, start), interval, events))
  {
    RunConserves(Started(connected, start), interval, events);
  }

  // ----- receiving -----

  /** The delivered messages are the non-heartbeat frames of the received bytes, and the buffer is what one-shot
      framing leaves; a stream with a bad frame has closed the link. */
  ghost predicate Delivered(w: World) {
    var f := Split(w.hist.received);
    && w.hist.delivered == Payload(f.frames)
    && (if f.tail.Rest? then f.tail.rest == w.link.buff else w.link.flag == Closed)
  }

  lemma ReceiveDelivers(w: World, c: seq<byte>, now: int)
    requires Delivered(w) && w.link.flag == Connected
    ensures Delivered(CloseOnFail(Receive(w, c, now)))
  {
    SplitResumes(w.hist.received, c);
    var f := Split(w.link.buff + c);
    PayloadConcat(Split(w.hist.received).frames, f.frames);
    TakeFramesEffect(w.(hist := w.hist.(received := w.hist.received + c)), f.frames, now);
  }

  lemma RecvDelivers(w: World, res: RecvResult, now: int)
    requires Delivered(w)
    ensures Delivered(CloseOnFail(HandleRecv(w, res, now)))
  {
    if w.link.flag == Connected && |w.link.buff| < MAX_RECV_BUFF && res.Chunk? {
      ReceiveDelivers(World(w.link.(misses := 0), w.hist.(resetAt := now)), res.bytes, now);
    }
  }

  lemma {:induction false} DrainReceivesNothing(w: World, results: seq<SendResult>, now: int)
    ensures var w1 := Drain(w, results, now).0;
            && w1.hist.received == w.hist.received && w1.hist.delivered == w.hist.delivered
            && w1.link.buff == w.link.buff && w1.link.flag == w.link.flag
    decreases |w.link.queue|
  {
    if w.link.queue != [] {
      DrainReceivesNothing(SendRest(w, now), if results == [] then [] else results[1..], now);
    }
  }

  lemma WritableDelivers(w: World, connects: bool, results: seq<SendResult>, now: int)
    requires Delivered(w)
    ensures Delivered(CloseOnFail(HandleSend(w, connects, results, now)))
  {
    if w.link.flag == Connected {
      DrainReceivesNothing(w.(link := w.link.(writable := false)), results, now);
    }
  }

  lemma SendDelivers(w: World, msg: Frame, timeout: nat, res: SendResult, now: int)
    requires Taken(res) <= |msg| && Delivered(w)
    ensures Delivered(SendMsg(w, msg, timeout, res, now).0)
  {
  }

  lemma TickDelivers(w: World, interval: nat, res: SendResult, now: int)
    requires Taken(res) <= HEADER_SIZE && Delivered(w)
    ensures Delivered(HandleTimeout(w, interval, res, now))
  {
    if w.link.flag == Connected {
      var l := CountMisses(w.link, interval, now);
      SendDelivers(w.(link := l.(lastSend := now)), Heartbeat(), 0, res, now);
      assert Delivered(w.(link := l));
      assert Delivered(SendHeartbeat(w.(link := l), interval, res, now));
    }
  }

  lemma StepDelivers(w: World, interval: nat, step: Step, now: int)
    requires Delivered(w) && Possible(w.link, step)
    ensures Delivered(Next(w, interval, step, now))
  {
    match step
    case Send(msg, timeout, res) => SendDelivers(w, msg, timeout, res, now);
    case Readable(res) => RecvDelivers(w, res, now);
    case Writable(connects, results) => WritableDelivers(w, connects, results, now);
    case Tick(res) => TickDelivers(w, interval, res, now);
    case _ =>
  }

  lemma {:induction false} RunDelivers(w: World, interval: nat, events: seq<Event>)
    requires Delivered(w) && IsRun(w, interval, events)
    ensures Delivered(Run(w, interval, events))
    decreases |events|
  {
    if events != [] {
      StepDelivers(w, interval, events[0].step, events[0].now);
      RunDelivers(Next(w, interval, events[0].step, events[0].now), interval, events[1..]);
    }
  }

  /** Two connections that received the same bytes, in whatever chunks and with whatever else going on,
      have delivered the same messages, and both are closed or hold the same unparsed bytes. */
  lemma DeliveryIgnoresChunking(connected: bool, start: int, interval: nat, one: seq<Event>, other: seq<Event>)
    requires IsRun(Started(connected, start), interval, one) && IsRun(Started(connected, start), interval, other)
    requires Run(Started(connected, start), interval, one).hist.received
             == Run(Started(connected, start), interval, other).hist.received
    ensures var a, b := Run(Started(connected, start), interval, one), Run(Started(connected, start), interval, other);
            && a.hist.delivered == b.hist.delivered == Payload(Split(a.hist.received).frames)
            && (a.link.buff == b.link.buff || (a.link.flag == Closed && b.link.flag == Closed))
  {
    RunDelivers(Started(connected, start), interval, one);
    RunDelivers(Started(connected, start), interval, other);
  }

  // ----- frames longer than the buffer -----

  /** While the frame under way is not longer than the buffer, there is room for more of it. */
  lemma RoomLeft(w: World)
    requires Delivered(w) && Split(w.hist.received).tail.Rest?
    requires |w.link.buff| >= HEADER_SIZE ==> PacketLength(w.link.buff) <= MAX_RECV_BUFF
    ensures |w.link.buff| < MAX_RECV_BUFF
  {
    SplitExact(w.hist.received);
  }

  /** Steps that are no reads leave the receiving side alone. */
  lemma OtherStepsReceiveNothing(w: World, interval: nat, step: Step, now: int)
    requires Possible(w.link, step) && !step.Readable?
    ensures var w1 := Next(w, interval, step, now);
            && w1.hist.received == w.hist.received && w1.hist.delivered == w.hist.delivered
            && w1.link.buff == w.link.buff
  {
    match step
    case Send(msg, timeout, res) => SendReceivesNothing(w, msg, timeout, res, now);
    case Writable(connects, results) =>
      DrainReceivesNothing(w.(link := w.link.(writable := false)), results, now);
    case Tick(res) =>
      var l := CountMisses(w.link, interval, now);
      SendReceivesNothing(w.(link := l.(lastSend := now)), Heartbeat(), 0, res, now);
    case ErrorEvent =>
    case Stop =>
  }

  lemma SendReceivesNothing(w: World, msg: Frame, timeout: nat, res: SendResult, now: int)
    requires Taken(res) <= |msg|
    ensures var w1 := SendMsg(w, msg, timeout, res, now).0;
            && w1.hist.received == w.hist.received && w1.hist.delivered == w.hist.delivered
            && w1.link.buff == w.link.buff
  {
  }

  /** Once the buffer is full without a complete frame in it, no run ever receives or delivers anything again. */
  lemma {:induction false} FullBufferStays(w: World, interval: nat, events: seq<Event>)
    requires |w.link.buff| >= MAX_RECV_BUFF && IsRun(w, interval, events)
    ensures var w1 := Run(w, interval, events);
            && w1.hist.received == w.hist.received && w1.hist.delivered == w.hist.delivered
            && w1.link.buff == w.link.buff
    decreases |events|
  {
    if events != [] {
      if !events[0].step.Readable? {
        OtherStepsReceiveNothing(w, interval, events[0].step, events[0].now);
      }
      FullBufferStays(Next(w, interval, events[0].step, events[0].now), interval, events[1..]);
    }
  }

  /** The header announces a frame that cannot fit. */
  predicate Oversized(buff: seq<byte>) {
    |buff| >= HEADER_SIZE && PacketLength(buff) > MAX_RECV_BUFF
  }

  /** Bytes behind such a header are only kept. */
  lemma OversizedAppends(w: World, c: seq<byte>, now: int)
    requires w.link.flag == Connected && Oversized(w.link.buff) && 0 < |c| && |w.link.buff| + |c| <= MAX_RECV_BUFF
    ensures HandleRecv(w, Chunk(c), now)
         == (World(w.link.(misses := 0, buff := w.link.buff + c),
                   w.hist.(resetAt := now, received := w.hist.received + c)), Ok)
    ensures Oversized(w.link.buff + c)
  {
    SameHeader(w.link.buff, c);
    assert Split(w.link.buff + c) == Framing([], Rest(w.link.buff + c));
    assert TakeFrames(w, [], now) == w;
  }

  lemma OversizedStep(w: World, interval: nat, step: Step, now: int)
    requires Oversized(w.link.buff) && Possible(w.link, step)
    ensures var w1 := Next(w, interval, step, now);
            w1.hist.delivered == w.hist.delivered && Oversized(w1.link.buff)
  {
    if !step.Readable? {
      OtherStepsReceiveNothing(w, interval, step, now);
    } else if w.link.flag == Connected && step.rres.Chunk? && |w.link.buff| < MAX_RECV_BUFF {
      OversizedAppends(w, step.rres.bytes, now);
    }
  }

  lemma {:induction false} OversizedDeliversNothing(w: World, interval: nat, events: seq<Event>)
    requires Oversized(w.link.buff) && IsRun(w, interval, events)
    ensures Run(w, interval, events).hist.delivered == w.hist.delivered
    decreases |events|
  {
    if events != [] {
      OversizedStep(w, interval, events[0].step, events[0].now);
      OversizedDeliversNothing(Next(w, interval, events[0].step, events[0].now), interval, events[1..]);
    }
  }

  /** A message of the application: version, type 3, number 1, no body. */
  function Probe(): Frame {
    [0x00, 0x01, 0x03, 0x00, 0x00, 0x00, 0x01, 0x00, 0x0C, 0x00, 0x00, 0x00]
  }

  /** A chunk that ends the frame under way is followed by a message that gets through. */
  lemma FittingFrameDelivers(w: World, interval: nat, now: int) returns (events: seq<Event>)
    requires Delivered(w) && w.link.flag == Connected && |w.link.buff| >= HEADER_SIZE
    requires Version(w.link.buff) == PROTOCOL_VERSION && PacketLength(w.link.buff) <= MAX_RECV_BUFF
    ensures IsRun(w, interval, events) && Run(w, interval, events).hist.delivered != w.hist.delivered
  {
    var b := w.link.buff;
    SplitExact(w.hist.received);
    var c := seq(PacketLength(b) - |b|, _ => 0);
    SameHeader(b, c);
    var f: Frame := b + c;
    OneFrame(f);
    var e1, e2 := Event(Readable(Chunk(c)), now), Event(Readable(Chunk(Probe())), now);
    var w1 := Next(w, interval, e1.step, now);
    TakesOneFrame(w, c, f, now);
    ProbeDelivers(w1, interval, now);
    RunStep(w, interval, e1, [e2]);
    events := [e1] + [e2];
  }

  lemma ProbeDelivers(w: World, interval: nat, now: int)
    requires w.link.flag == Connected && w.link.buff == []
    ensures var events := [Event(Readable(Chunk(Probe())), now)];
            IsRun(w, interval, events) && |Run(w, interval, events).hist.delivered| == |w.hist.delivered| + 1
  {
    var e := Event(Readable(Chunk(Probe())), now);
    OneFrame(Probe());
    assert [] + Probe() == Probe();
    TakesOneFrame(w, Probe(), Probe(), now);
    RunStep(w, interval, e, []);
    assert [e] + [] == [e] && MsgType(Probe()) == 3;
  }

  lemma RunStep(w: World, interval: nat, e: Event, more: seq<Event>)
    requires Possible(w.link, e.step) && IsRun(Next(w, interval, e.step, e.now), interval, more)
    ensures IsRun(w, interval, [e] + more)
    ensures Run(w, interval, [e] + more) == Run(Next(w, interval, e.step, e.now), interval, more)
  {
    assert ([e] + more)[1..] == more;
  }

  lemma OneFrame(f: Frame)
    requires Complete(f)
    ensures Split(f) == Framing([f], Rest([]))
  {
    assert f[..|f|] == f && f[|f|..] == [];
    assert [f] + [] == [f];
  }

  lemma TakesOneFrame(w: World, c: seq<byte>, f: Frame, now: int)
    requires w.link.flag == Connected && |w.link.buff| < MAX_RECV_BUFF && w.link.buff + c == f
             && Split(f) == Framing([f], Rest([]))
    ensures var w1 := CloseOnFail(HandleRecv(w, Chunk(c), now));
            && w1.link.flag == Connected && w1.link.buff == []
            && w1.hist.delivered == w.hist.delivered + if MsgType(f) == TYPE_HEARTBEAT then [] else [f]
  {
    var w1 := World(w.link.(misses := 0), w.hist.(resetAt := now, received := w.hist.received + c));
    assert [f][1..] == [];
    assert TakeFrames(w1, [f], now) == TakeFrames(TakeFrame(w1, f, now), [], now) == TakeFrame(w1, f, now);
    assert w.hist.delivered + [] == w.hist.delivered;
  }

  /** The announced length is the exact condition: with the header of the frame under way in the buffer and its version
      right, no run from here on delivers another message if and only if that frame is longer than the buffer. */
  lemma DeafExactlyWhenOversized(w: World, interval: nat)
    requires Delivered(w) && w.link.flag == Connected && |w.link.buff| >= HEADER_SIZE
    requires Version(w.link.buff) == PROTOCOL_VERSION
    ensures (forall events | IsRun(w, interval, events) :: Run(w, interval, events).hist.delivered == w.hist.delivered)
            <==> PacketLength(w.link.buff) > MAX_RECV_BUFF
  {
    if Oversized(w.link.buff) {
      forall events | IsRun(w, interval, events)
        ensures Run(w, interval, events).hist.delivered == w.hist.delivered
      {
        OversizedDeliversNothing(w, interval, events);
      }
    } else {
      var events := FittingFrameDelivers(w, interval, 0);
    }
  }

  /** Such a state comes up: one chunk that announces a byte more than the buffer holds fills it, and the link stays
      connected with it. */
  lemma BufferCanFill(start: int, interval: nat, now: int) returns (c: seq<byte>)
    ensures var event := Event(Readable(Chunk(c)), now);
            && IsRun(Started(true, start), interval, [event])
            && var w := Run(Started(true, start), interval, [event]);
               w.link.flag == Connected && |w.link.buff| == MAX_RECV_BUFF && Oversized(w.link.buff) && Delivered(w)
  {
    var head: seq<byte> := [0x00, 0x01, 0x03, 0x00, 0x00, 0x00, 0x01, 0x00, 0x01, 0x00, 0x08, 0x00];
    var body: seq<byte> := seq(MAX_RECV_BUFF - HEADER_SIZE, _ => 0);
    c := head + body;
    SameHeader(head, body);
    assert PacketLength(head) == MAX_RECV_BUFF + 1;
    var w0, event := Started(true, start), Event(Readable(Chunk(c)), now);
    assert [] + c == c;
    assert Split(c) == Framing([], Rest(c));
    assert TakeFrames(w0, [], now) == w0;
    RunDelivers(w0, interval, [event]);
    assert Run(Next(w0, interval, event.step, now), interval, []) == Next(w0, interval, event.step, now);
  }
}
