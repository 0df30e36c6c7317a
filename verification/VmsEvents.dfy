/** What events do to a link: when it connects, when it closes, what is reported then, and what moves its clocks. */
module VmsEvents {
  import opened VmsFrames
  import opened VmsLink
  import opened VmsResponses
  import opened VmsRuns
  import opened VmsTimeouts

  // ----- connecting -----

  /** A connection that completes starts both heartbeat clocks and stops listening for EPOLLOUT; one that fails closes
      the link. */
  lemma ConnectsExactly(w: World, interval: nat, connects: bool, results: seq<SendResult>, now: int)
    requires w.link.flag == Connecting
    ensures var w1 := Next(w, interval, Writable(connects, results), now);
            if connects then
              w1 == w.(link := w.link.(flag := Connected, lastSend := now, lastRecv := now, writable := false))
            else w1.link.flag == Closed
  {
  }

  // ----- receiving -----

  /** Anything that makes a connected link readable sets the miss counter to zero, whether it brings bytes or not. */
  lemma ReceivingResets(w: World, interval: nat, res: RecvResult, now: int)
    requires w.link.flag == Connected && Possible(w.link, Readable(res))
    ensures var w1 := Next(w, interval, Readable(res), now); w1.link.misses == 0 && w1.hist.resetAt == now
  {
    if |w.link.buff| < MAX_RECV_BUFF && res.Chunk? {
      var w1 := World(w.link.(misses := 0), w.hist.(resetAt := now, received := w.hist.received + res.bytes));
      TakeFramesEffect(w1, Split(w.link.buff + res.bytes).frames, now);
    }
  }

  predicate HasHeartbeat(fs: seq<Frame>) {
    exists i | 0 <= i < |fs| :: fs[i][2..6] == [0x02, 0x00, 0x00, 0x00]
  }

  lemma {:induction false} FramesMoveTheClock(w: World, fs: seq<Frame>, now: int)
    ensures TakeFrames(w, fs, now).link.lastRecv == if HasHeartbeat(fs) then now else w.link.lastRecv
    decreases |fs|
  {
    if fs != [] {
      var w1 := TakeFrame(w, fs[0], now);
      HeartbeatBytes(fs[0]);
      assert forall i | 0 < i < |fs| :: fs[i] == fs[1..][i - 1];
      assert forall i | 0 <= i < |fs[1..]| :: fs[1..][i] == fs[i + 1];
      FramesMoveTheClock(w1, fs[1..], now);
    }
  }

  /** The heartbeat clock starts anew exactly when a chunk completes a frame of type 2. No other message moves it. */
  lemma ChunkMovesTheClock(w: World, interval: nat, c: seq<byte>, now: int)
    requires w.link.flag == Connected && |w.link.buff| < 524288 && Possible(w.link, Readable(Chunk(c)))
    ensures Next(w, interval, Readable(Chunk(c)), now).link.lastRecv
         == if HasHeartbeat(Split(w.link.buff + c).frames) then now else w.link.lastRecv
  {
    var w1 := World(w.link.(misses := 0), w.hist.(resetAt := now, received := w.hist.received + c));
    FramesMoveTheClock(w1, Split(w.link.buff + c).frames, now);
  }

  // ----- closing -----

  /** The send results bring a broken socket before one that takes less than what is left of its message. */
  predicate Breaks(queue: seq<Pending>, results: seq<SendResult>)
    decreases |queue|
  {
    && queue != [] && results != []
    && (results[0].Broken?
        || (results[0].Sent? && queue[0].sent + results[0].n >= |queue[0].msg| && Breaks(queue[1..], results[1..])))
  }

  lemma {:induction false} DrainBreaks(w: World, results: seq<SendResult>, now: int)
    requires forall p | p in w.link.queue :: p.sent < |p.msg|
    ensures var code := Drain(w, results, now).1;
            (code == Fail <==> Breaks(w.link.queue, results)) && code in {Ok, Fail}
    decreases |w.link.queue|
  {
    if w.link.queue != [] && results != [] {
      assert w.link.queue[0] in w.link.queue;
      assert SendRest(w, now).link.queue == w.link.queue[1..];
      DrainBreaks(SendRest(w, now), results[1..], now);
    }
  }

  /** The steps that close a link: stopping it, an error event, and a readable or writable socket when the link was
      given up, the connection failed, the socket is broken, or a frame cannot be accepted. */
  predicate Closes(l: Link, step: Step) {
    match step
    case Stop => true
    case ErrorEvent => true
    case Readable(res) =>
      || l.flag == ConnTimeout
      || (l.flag == Connected && |l.buff| < 524288
          && (res.RecvBroken? || (res.Chunk? && !Split(l.buff + res.bytes).tail.Rest?)))
    case Writable(connects, results) =>
      || l.flag == ConnTimeout
      || (l.flag == Connecting && !connects)
      || (l.flag == Connected && Breaks(l.queue, results))
    case Send(_, _, _) => false
    case Tick(_) => false
  }

  lemma ClosesExactly(w: World, interval: nat, step: Step, now: int)
    requires Conserved(w) && Possible(w.link, step)
    ensures Next(w, interval, step, now).link.flag == Closed <==> w.link.flag == Closed || Closes(w.link, step)
  {
    match step
    case Readable(res) => ReadableCloses(w, res, now);
    case Writable(connects, results) => WritableCloses(w, connects, results, now);
    case Send(_, _, _) =>
    case Tick(_) =>
    case ErrorEvent =>
    case Stop =>
  }

  lemma ReadableCloses(w: World, res: RecvResult, now: int)
    ensures CloseOnFail(HandleRecv(w, res, now)).link.flag == Closed <==>
              w.link.flag == Closed || Closes(w.link, Readable(res))
  {
    if w.link.flag == Connected && |w.link.buff| < MAX_RECV_BUFF && res.Chunk? {
      var w1 := World(w.link.(misses := 0), w.hist.(resetAt := now, received := w.hist.received + res.bytes));
      TakeFramesEffect(w1, Split(w.link.buff + res.bytes).frames, now);
    }
  }

  lemma WritableCloses(w: World, connects: bool, results: seq<SendResult>, now: int)
    requires forall p | p in w.link.queue :: p.sent < |p.msg|
    ensures CloseOnFail(HandleSend(w, connects, results, now)).link.flag == Closed <==>
              w.link.flag == Closed || Closes(w.link, Writable(connects, results))
  {
    var w0 := w.(link := w.link.(writable := false));
    DrainBreaks(w0, results, now);
    DrainKeepsFlag(w0, results, now);
  }

  /** How many messages of the queue are requests with number k. */
  function Queued(queue: seq<Pending>, k: nat): nat {
    if queue == [] then 0
    else
      var p := queue[0];
      (if p.timeout > 0 && k < 0x8000 && (p.msg[6] as int) + 0x100 * (p.msg[7] as int) == k then 1 else 0)
      + Queued(queue[1..], k)
  }

  lemma {:induction false} QueuedIs(queue: seq<Pending>, k: nat)
    ensures Requests(queue)[k] == Queued(queue, k)
  {
    if queue != [] {
      QueuedIs(queue[1..], k);
    }
  }

  /** What is reported when a link closes: each request still in the queue has failed, each one that waits has timed
      out, and none of them is left. */
  lemma ClosingReports(w: World, k: nat)
    ensures StopConn(w).hist.failed[k] == w.hist.failed[k] + Queued(w.link.queue, k)
    ensures StopConn(w).hist.timedOut[k] == w.hist.timedOut[k] + if k in w.link.waits then 1 else 0
    ensures StopConn(w).hist.answered == w.hist.answered
    ensures StopConn(w).link.queue == [] && StopConn(w).link.waits == map[]
    ensures w.link.flag != Closed ==> HandleClose(w) == StopConn(w)
  {
    QueuedIs(w.link.queue, k);
  }

  /** A failing handler is followed by exactly that. */
  lemma FailureReports(r: (World, Code))
    requires r.0.link.flag != Closed
    ensures CloseOnFail(r) == if r.1 == Fail then StopConn(r.0) else r.0
  {
  }
}
