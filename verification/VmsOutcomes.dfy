/** Every accepted request meets one outcome: a response, a timeout callback or a send-failure callback. */
module VmsOutcomes {
  import opened VmsFrames
  import opened VmsLink
  import opened VmsRuns

  /** Transaction numbers of requests that have no outcome yet: queued, or sent and waiting. */
  function Outstanding(l: Link): multiset<nat> {
    Requests(l.queue) + multiset(l.waits.Keys)
  }

  function Outcomes(h: History): multiset<nat> {
    h.answered + h.timedOut + h.failed
  }

  /** Every request is outstanding, has met its outcome, or was dropped because its number was taken. */
  ghost predicate Balanced(w: World) {
    && w.hist.requests == Outcomes(w.hist) + w.hist.leaked + Outstanding(w.link)
    && (forall k | k in w.link.waits :: TransNo(w.link.waits[k].msg) == k && IsRequest(w.link.waits[k]))
    && (w.link.flag in {Idle, Connecting, Closed} ==> w.link.queue == [] && w.link.waits == map[])
  }

  /** Only these fields matter. */
  lemma SameBalance(w: World, w1: World)
    requires Balanced(w)
    requires w1.link.flag == w.link.flag && w1.link.queue == w.link.queue && w1.link.waits == w.link.waits
    requires w1.hist.requests == w.hist.requests && w1.hist.leaked == w.hist.leaked
             && Outcomes(w1.hist) == Outcomes(w.hist)
    ensures Balanced(w1)
  {
  }

  // ----- one step -----

  lemma KeysWith(m: map<nat, Pending>, k: nat, p: Pending)
    requires k !in m
    ensures multiset(m[k := p].Keys) == multiset(m.Keys) + multiset{k}
  {
    assert m[k := p].Keys == m.Keys + {k};
  }

  lemma KeysWithout(m: map<nat, Pending>, k: nat)
    requires k in m
    ensures multiset(m.Keys) == multiset((m - {k}).Keys) + multiset{k}
  {
    assert (m - {k}).Keys == m.Keys - {k};
    assert m.Keys == (m.Keys - {k}) + {k};
  }

  lemma {:induction false} RequestsSnoc(queue: seq<Pending>, p: Pending)
    ensures Requests(queue + [p]) == Requests(queue) + (if IsRequest(p) then multiset{TransNo(p.msg)} else multiset{})
  {
    if queue == [] {
      assert queue + [p] == [p];
      assert Requests([p]) == (if IsRequest(p) then multiset{TransNo(p.msg)} else multiset{}) + Requests([]);
    } else {
      assert (queue + [p])[1..] == queue[1..] + [p];
      RequestsSnoc(queue[1..], p);
    }
  }

  /** A request that starts to wait is outstanding from then on, or leaks when its number is taken. */
  lemma AddWaitBalance(w: World, p: Pending)
    requires IsRequest(p)
    requires forall k | k in w.link.waits :: TransNo(w.link.waits[k].msg) == k && IsRequest(w.link.waits[k])
    ensures var w1 := AddWait(w, p);
            && w1.hist.leaked + multiset(w1.link.waits.Keys)
               == w.hist.leaked + multiset(w.link.waits.Keys) + multiset{TransNo(p.msg)}
            && (w1.hist.leaked == w.hist.leaked <==> TransNo(p.msg) !in w.link.waits)
            && (forall k | k in w1.link.waits :: TransNo(w1.link.waits[k].msg) == k && IsRequest(w1.link.waits[k]))
            && w1.link == w.link.(waits := w1.link.waits) && w1.hist == w.hist.(leaked := w1.hist.leaked)
  {
    if TransNo(p.msg) !in w.link.waits {
      KeysWith(w.link.waits, TransNo(p.msg), p);
    } else {
      assert (w.hist.leaked + multiset{TransNo(p.msg)})[TransNo(p.msg)] == w.hist.leaked[TransNo(p.msg)] + 1;
    }
  }

  /** A message that joins the queue. */
  lemma QueueBalances(w: World, h: History, p: Pending, writable: bool)
    requires Balanced(w) && w.link.flag == Connected
    requires h.requests == w.hist.requests + (if IsRequest(p) then multiset{TransNo(p.msg)} else multiset{})
    requires Outcomes(h) == Outcomes(w.hist) && h.leaked == w.hist.leaked
    ensures Balanced(World(w.link.(queue := w.link.queue + [p], writable := writable), h))
  {
    RequestsSnoc(w.link.queue, p);
  }

  /** A message that went out at once. */
  lemma SentBalances(w: World, h: History, p: Pending)
    requires Balanced(w) && w.link.flag == Connected && IsRequest(p)
    requires h.requests == w.hist.requests + multiset{TransNo(p.msg)}
    requires Outcomes(h) == Outcomes(w.hist) && h.leaked == w.hist.leaked
    ensures Balanced(AddWait(World(w.link, h), p))
  {
    AddWaitBalance(World(w.link, h), p);
  }

  lemma SendBalances(w: World, msg: Frame, timeout: nat, res: SendResult, now: int)
    requires Balanced(w) && Taken(res) <= |msg|
    ensures Balanced(SendMsg(w, msg, timeout, res, now).0)
  {
    var l, h := w.link, w.hist;
    if l.flag == Connected && PacketLength(msg) == |msg| {
      if l.queue == [] && !res.Broken? {
        var h1 := AcceptMessage(h, msg, timeout).(wire := h.wire + msg[..Taken(res)]);
        if Taken(res) < |msg| {
          QueueBalances(w, h1, Pending(msg, Taken(res), timeout, 0), true);
          assert [] + [Pending(msg, Taken(res), timeout, 0)] == [Pending(msg, Taken(res), timeout, 0)];
        } else if Awaits(timeout, TransNo(msg)) {
          SentBalances(w, h1, Pending(msg, |msg|, timeout, now));
        }
      } else if l.queue != [] && |l.queue| < MAX_QUEUE_SIZE {
        QueueBalances(w, AcceptMessage(h, msg, timeout), Pending(msg, 0, timeout, 0), l.writable);
      }
    }
  }

  lemma SendRestBalances(w: World, now: int)
    requires Balanced(w) && w.link.queue != [] && w.link.flag == Connected
    ensures Balanced(SendRest(w, now)) && SendRest(w, now).link.flag == Connected
  {
    var l, p := w.link, w.link.queue[0];
    var w1 := World(l.(queue := l.queue[1..]), w.hist.(wire := w.hist.wire + Slice(p.msg, p.sent, |p.msg|)));
    if IsRequest(p) {
      AddWaitBalance(w1, p.(sent := |p.msg|, sendTime := now));
    }
  }

  lemma {:induction false} DrainBalances(w: World, results: seq<SendResult>, now: int)
    requires Balanced(w) && w.link.flag == Connected
    ensures Balanced(Drain(w, results, now).0)
    decreases |w.link.queue|
  {
    if w.link.queue != [] {
      var p, res := w.link.queue[0], NextResult(results);
      if !res.Broken? {
        if p.sent + Taken(res) < |p.msg| {
          assert ([p.(sent := p.sent + Taken(res))] + w.link.queue[1..])[1..] == w.link.queue[1..];
        } else {
          SendRestBalances(w, now);
          DrainBalances(SendRest(w, now), if results == [] then [] else results[1..], now);
        }
      }
    }
  }

  lemma {:induction false} TakeFramesBalances(w: World, fs: seq<Frame>, now: int)
    requires Balanced(w) && w.link.flag == Connected
    ensures Balanced(TakeFrames(w, fs, now)) && TakeFrames(w, fs, now).link.flag == Connected
    decreases |fs|
  {
    if fs != [] {
      TakeFrameBalances(w, fs[0], now);
      TakeFramesBalances(TakeFrame(w, fs[0], now), fs[1..], now);
    }
  }

  lemma DelWaitBalances(w: World, tn: nat)
    requires Balanced(w)
    ensures Balanced(DelWait(w, tn)) && DelWait(w, tn).link.flag == w.link.flag
  {
    var k := tn - RESP_MASK;
    if k >= 0 && k in w.link.waits {
      KeysWithout(w.link.waits, k);
      AnswerMoves(w.hist.requests, w.hist.answered, w.hist.timedOut, w.hist.failed, w.hist.leaked,
                  Requests(w.link.queue), multiset(w.link.waits.Keys),
                  multiset((w.link.waits - {k}).Keys), k);
    }
  }

  /** Request k moves from the waiting to the answered ones. */
  lemma AnswerMoves(all: multiset<nat>, answered: multiset<nat>, timedOut: multiset<nat>, failed: multiset<nat>,
                 leaked: multiset<nat>, queued: multiset<nat>, waits: multiset<nat>, left: multiset<nat>, k: nat)
    requires all == answered + timedOut + failed + leaked + (queued + waits) && waits == left + multiset{k}
    ensures all == answered + multiset{k} + timedOut + failed + leaked + (queued + left)
  {
  }

  lemma TakeFrameBalances(w: World, f: Frame, now: int)
    requires Balanced(w) && w.link.flag == Connected
    ensures Balanced(TakeFrame(w, f, now)) && TakeFrame(w, f, now).link.flag == Connected
  {
    if MsgType(f) != TYPE_HEARTBEAT {
      DelWaitBalances(w.(hist := w.hist.(delivered := w.hist.delivered + [f])), TransNo(f));
    }
  }

  lemma NotifyBalances(w: World)
    requires w.hist.requests == Outcomes(w.hist) + w.hist.leaked + Outstanding(w.link)
    ensures Balanced(NotifyAll(w)) && Outstanding(NotifyAll(w).link) == multiset{}
  {
    var none: map<nat, Pending> := map[];
    assert none.Keys == {};
  }

  lemma CloseBalances(w: World)
    requires Balanced(w)
    ensures Balanced(HandleClose(w)) && Balanced(StopConn(w))
  {
    NotifyBalances(w.(link := Shutdown(w.link)));
  }

  lemma ReceiveBalances(w: World, c: seq<byte>, now: int)
    requires Balanced(w) && w.link.flag == Connected
    ensures Balanced(Receive(w, c, now).0)
  {
    TakeFramesBalances(w.(hist := w.hist.(received := w.hist.received + c)), Split(w.link.buff + c).frames, now);
  }

  lemma CloseOnFailBalances(r: (World, Code))
    requires Balanced(r.0)
    ensures Balanced(CloseOnFail(r))
  {
    CloseBalances(r.0);
  }

  lemma RecvBalances(w: World, res: RecvResult, now: int)
    requires Balanced(w)
    ensures Balanced(HandleRecv(w, res, now).0)
  {
    var w1 := World(w.link.(misses := 0), w.hist.(resetAt := now));
    SameBalance(w, w1);
    if w.link.flag == Connected && |w.link.buff| < MAX_RECV_BUFF && res.Chunk? {
      ReceiveBalances(w1, res.bytes, now);
    }
  }

  lemma WritableBalances(w: World, connects: bool, results: seq<SendResult>, now: int)
    requires Balanced(w)
    ensures Balanced(HandleSend(w, connects, results, now).0)
  {
    if w.link.flag == Connected {
      SameBalance(w, w.(link := w.link.(writable := false)));
      DrainBalances(w.(link := w.link.(writable := false)), results, now);
    }
  }

  lemma CheckRespBalances(w: World, interval: nat, now: int)
    requires Balanced(w)
    ensures Balanced(CheckResp(w, interval, now))
  {
    SweepSplits(w, interval, now);
  }

  lemma SweepSplits(w: World, interval: nat, now: int)
    ensures var expired, kept := ExpiredOf(w.link.waits, interval, now), CheckResp(w, interval, now).link.waits;
            && multiset(w.link.waits.Keys) == multiset(expired) + multiset(kept.Keys)
            && (w.link.waits == map[] ==> kept == map[])
  {
    var expired, kept := ExpiredOf(w.link.waits, interval, now), CheckResp(w, interval, now).link.waits;
    assert kept.Keys == w.link.waits.Keys - expired;
    assert w.link.waits.Keys == expired + kept.Keys;
  }

  lemma HeartbeatBalances(w: World, interval: nat, res: SendResult, now: int)
    requires Balanced(w) && Taken(res) <= HEADER_SIZE
    ensures Balanced(SendHeartbeat(w, interval, res, now))
  {
    SameBalance(w, w.(link := w.link.(lastSend := now)));
    SendBalances(w.(link := w.link.(lastSend := now)), Heartbeat(), 0, res, now);
  }

  lemma TickBalances(w: World, interval: nat, res: SendResult, now: int)
    requires Balanced(w) && Taken(res) <= HEADER_SIZE
    ensures Balanced(HandleTimeout(w, interval, res, now))
  {
    if w.link.flag == Connected {
      var l := CountMisses(w.link, interval, now);
      CountBalances(w, interval, now);
      if l.misses <= TIMEOUT_TIMES {
        HeartbeatBalances(w.(link := l), interval, res, now);
        CheckRespBalances(SendHeartbeat(w.(link := l), interval, res, now), interval, now);
      }
    }
  }

  lemma CountBalances(w: World, interval: nat, now: int)
    requires Balanced(w) && w.link.flag == Connected
    ensures var l := CountMisses(w.link, interval, now);
            Balanced(w.(link := l)) && Balanced(w.(link := l.(flag := ConnTimeout)))
  {
  }

  lemma StepBalances(w: World, interval: nat, step: Step, now: int)
    requires Balanced(w) && Possible(w.link, step)
    ensures Balanced(Next(w, interval, step, now))
  {
    match step
    case Send(msg, timeout, res) => SendBalances(w, msg, timeout, res, now);
    case Readable(res) =>
      RecvBalances(w, res, now);
      CloseOnFailBalances(HandleRecv(w, res, now));
    case Writable(connects, results) =>
      WritableBalances(w, connects, results, now);
      CloseOnFailBalances(HandleSend(w, connects, results, now));
    case Tick(res) => TickBalances(w, interval, res, now);
    case ErrorEvent => CloseBalances(w);
    case Stop => CloseBalances(w);
  }

  lemma {:induction false} RunBalances(w: World, interval: nat, events: seq<Event>)
    requires Balanced(w) && IsRun(w, interval, events)
    ensures Balanced(Run(w, interval, events))
    decreases |events|
  {
    if events != [] {
      StepBalances(w, interval, events[0].step, events[0].now);
      RunBalances(Next(w, interval, events[0].step, events[0].now), interval, events[1..]);
    }
  }

  // ----- distinct numbers -----

  /** At most one request with this number is outstanding, and `lost` have been lost so far. */
  ghost predicate Alone(w: World, tn: nat, lost: nat) {
    w.hist.leaked[tn] == lost && Outstanding(w.link)[tn] <= 1
  }

  /** The application's side of the bargain, checkable before the call: a new request does not use the number
      of one that is still outstanding. */
  predicate UsesFreeNumber(l: Link, step: Step) {
    step.Send? && Awaits(step.timeout, TransNo(step.msg)) ==> TransNo(step.msg) !in Outstanding(l)
  }

  ghost predicate IsCarefulRun(w: World, interval: nat, events: seq<Event>)
    decreases |events|
  {
    events == [] ||
    (Possible(w.link, events[0].step) && UsesFreeNumber(w.link, events[0].step)
     && IsCarefulRun(Next(w, interval, events[0].step, events[0].now), interval, events[1..]))
  }

  /** One for a request with this number. */
  function One(timeout: nat, msg: Frame, tn: nat): nat {
    if Awaits(timeout, TransNo(msg)) && TransNo(msg) == tn then 1 else 0
  }

  lemma AddWaitAlone(w: World, p: Pending, tn: nat, lost: nat)
    requires w.hist.leaked[tn] == lost && IsRequest(p) && Outstanding(w.link)[tn] + One(p.timeout, p.msg, tn) <= 1
    ensures Alone(AddWait(w, p), tn, lost)
  {
    if TransNo(p.msg) !in w.link.waits {
      KeysWith(w.link.waits, TransNo(p.msg), p);
    }
  }

  lemma QueueAlone(w: World, p: Pending, w1: World, tn: nat, lost: nat)
    requires Alone(w, tn, lost) && Outstanding(w.link)[tn] + One(p.timeout, p.msg, tn) <= 1
    requires w1.hist.leaked == w.hist.leaked && w1.link.waits == w.link.waits && w1.link.queue == w.link.queue + [p]
    ensures Alone(w1, tn, lost)
  {
    RequestsSnoc(w.link.queue, p);
  }

  lemma SendAlone(w: World, msg: Frame, timeout: nat, res: SendResult, now: int, tn: nat, lost: nat)
    requires Alone(w, tn, lost) && Taken(res) <= |msg| && Outstanding(w.link)[tn] + One(timeout, msg, tn) <= 1
    ensures Alone(SendMsg(w, msg, timeout, res, now).0, tn, lost)
  {
    var l, w1 := w.link, SendMsg(w, msg, timeout, res, now).0;
    if l.flag == Connected && PacketLength(msg) == |msg| {
      if l.queue == [] && !res.Broken? {
        if Taken(res) < |msg| {
          assert w1.link.queue == l.queue + [Pending(msg, Taken(res), timeout, 0)];
          QueueAlone(w, Pending(msg, Taken(res), timeout, 0), w1, tn, lost);
        } else if Awaits(timeout, TransNo(msg)) {
          AddWaitAlone(World(l, AcceptMessage(w.hist, msg, timeout).(wire := w.hist.wire + msg[..Taken(res)])),
                       Pending(msg, |msg|, timeout, now), tn, lost);
        }
      } else if l.queue != [] && |l.queue| < MAX_QUEUE_SIZE {
        QueueAlone(w, Pending(msg, 0, timeout, 0), w1, tn, lost);
      }
    }
  }

  lemma SendRestAlone(w: World, now: int, tn: nat, lost: nat)
    requires Alone(w, tn, lost) && w.link.queue != []
    ensures Alone(SendRest(w, now), tn, lost)
  {
    var l, p := w.link, w.link.queue[0];
    var w1 := World(l.(queue := l.queue[1..]), w.hist.(wire := w.hist.wire + Slice(p.msg, p.sent, |p.msg|)));
    if IsRequest(p) {
      AddWaitAlone(w1, p.(sent := |p.msg|, sendTime := now), tn, lost);
    }
  }

  lemma SendPartAlone(w: World, n: nat, tn: nat, lost: nat)
    requires Alone(w, tn, lost) && w.link.queue != []
    ensures Alone(SendPart(w, n), tn, lost)
  {
    var p := w.link.queue[0];
    assert ([p.(sent := p.sent + n)] + w.link.queue[1..])[1..] == w.link.queue[1..];
  }

  lemma {:induction false} DrainAlone(w: World, results: seq<SendResult>, now: int, tn: nat, lost: nat)
    requires Alone(w, tn, lost)
    ensures Alone(Drain(w, results, now).0, tn, lost)
    decreases |w.link.queue|
  {
    if w.link.queue != [] {
      var p, res := w.link.queue[0], NextResult(results);
      if !res.Broken? {
        if p.sent + Taken(res) < |p.msg| {
          SendPartAlone(w, Taken(res), tn, lost);
        } else {
          SendRestAlone(w, now, tn, lost);
          DrainAlone(SendRest(w, now), if results == [] then [] else results[1..], now, tn, lost);
        }
      }
    }
  }

  /** Fewer outstanding numbers and no new loss. */
  lemma FewerAlone(w: World, w1: World, tn: nat, lost: nat)
    requires Alone(w, tn, lost) && w1.hist.leaked == w.hist.leaked
    requires w1.link.queue == w.link.queue || w1.link.queue == []
    requires w1.link.waits.Keys <= w.link.waits.Keys
    ensures Alone(w1, tn, lost)
  {
    assert multiset(w1.link.waits.Keys)[tn] <= multiset(w.link.waits.Keys)[tn];
  }

  lemma {:induction false} TakeFramesShrinks(w: World, fs: seq<Frame>, now: int)
    ensures TakeFrames(w, fs, now).link.waits.Keys <= w.link.waits.Keys
    decreases |fs|
  {
    if fs != [] {
      TakeFramesShrinks(TakeFrame(w, fs[0], now), fs[1..], now);
    }
  }

  lemma RecvAlone(w: World, res: RecvResult, now: int, tn: nat, lost: nat)
    requires Alone(w, tn, lost)
    ensures Alone(HandleRecv(w, res, now).0, tn, lost)
  {
    if w.link.flag == Connected && |w.link.buff| < MAX_RECV_BUFF && res.Chunk? {
      ReceiveShrinks(World(w.link.(misses := 0), w.hist.(resetAt := now)), res.bytes, now);
    }
    FewerAlone(w, HandleRecv(w, res, now).0, tn, lost);
  }

  lemma ReceiveShrinks(w: World, c: seq<byte>, now: int)
    ensures var w1 := Receive(w, c, now).0;
            && w1.hist.leaked == w.hist.leaked && w1.link.queue == w.link.queue
            && w1.link.waits.Keys <= w.link.waits.Keys
  {
    var w2 := w.(hist := w.hist.(received := w.hist.received + c));
    var fs := Split(w.link.buff + c).frames;
    TakeFramesEffect(w2, fs, now);
    TakeFramesShrinks(w2, fs, now);
  }

  lemma CloseAlone(w: World, tn: nat, lost: nat)
    requires Alone(w, tn, lost)
    ensures Alone(HandleClose(w), tn, lost) && Alone(StopConn(w), tn, lost)
  {
    FewerAlone(w, HandleClose(w), tn, lost);
    FewerAlone(w, StopConn(w), tn, lost);
  }

  lemma WritableAlone(w: World, connects: bool, results: seq<SendResult>, now: int, tn: nat, lost: nat)
    requires Alone(w, tn, lost)
    ensures Alone(HandleSend(w, connects, results, now).0, tn, lost)
  {
    FewerAlone(w, w.(link := w.link.(writable := false)), tn, lost);
    DrainAlone(w.(link := w.link.(writable := false)), results, now, tn, lost);
  }

  lemma TickAlone(w: World, interval: nat, res: SendResult, now: int, tn: nat, lost: nat)
    requires Alone(w, tn, lost) && Taken(res) <= HEADER_SIZE
    ensures Alone(HandleTimeout(w, interval, res, now), tn, lost)
  {
    var l := CountMisses(w.link, interval, now);
    FewerAlone(w, w.(link := l), tn, lost);
    FewerAlone(w, w.(link := l.(lastSend := now)), tn, lost);
    SendAlone(w.(link := l.(lastSend := now)), Heartbeat(), 0, res, now, tn, lost);
    var w1 := SendHeartbeat(w.(link := l), interval, res, now);
    FewerAlone(w1, CheckResp(w1, interval, now), tn, lost);
  }

  lemma StepAlone(w: World, interval: nat, step: Step, now: int, tn: nat, lost: nat)
    requires Alone(w, tn, lost) && Possible(w.link, step) && UsesFreeNumber(w.link, step)
    ensures Alone(Next(w, interval, step, now), tn, lost)
  {
    match step
    case Send(msg, timeout, res) => SendAlone(w, msg, timeout, res, now, tn, lost);
    case Readable(res) =>
      RecvAlone(w, res, now, tn, lost);
      CloseAlone(HandleRecv(w, res, now).0, tn, lost);
    case Writable(connects, results) =>
      WritableAlone(w, connects, results, now, tn, lost);
      CloseAlone(HandleSend(w, connects, results, now).0, tn, lost);
    case Tick(res) => TickAlone(w, interval, res, now, tn, lost);
    case ErrorEvent => CloseAlone(w, tn, lost);
    case Stop => CloseAlone(w, tn, lost);
  }

  /** With free numbers no request is lost and no number is outstanding twice. */
  lemma {:induction false} CarefulRun(w: World, interval: nat, events: seq<Event>, tn: nat, lost: nat)
    requires Alone(w, tn, lost) && IsCarefulRun(w, interval, events)
    ensures IsRun(w, interval, events) && Alone(Run(w, interval, events), tn, lost)
    decreases |events|
  {
    if events != [] {
      StepAlone(w, interval, events[0].step, events[0].now, tn, lost);
      CarefulRun(Next(w, interval, events[0].step, events[0].now), interval, events[1..], tn, lost);
    }
  }

  /** In every run with free numbers, each transaction number has had as many outcomes as requests, or one less
      while a request with it is outstanding: no request meets two outcomes. Once the link is closed, each has
      met exactly one. */
  lemma OneOutcome(connected: bool, start: int, interval: nat, events: seq<Event>, tn: nat)
    requires IsCarefulRun(Started(connected, start), interval, events)
    ensures IsRun(Started(connected, start), interval, events)
    ensures var w := Run(Started(connected, start), interval, events);
            && w.hist.requests[tn] == Outcomes(w.hist)[tn] + (if tn in Outstanding(w.link) then 1 else 0)
            && (w.link.flag == Closed ==>
                  w.link.queue == [] && w.link.waits == map[] && w.hist.requests == Outcomes(w.hist))
  {
    var w0 := Started(connected, start);
    var none: map<nat, Pending> := map[];
    assert none.Keys == {};
    CarefulRun(w0, interval, events, tn, 0);
    RunBalances(w0, interval, events);
    var w := Run(w0, interval, events);
    forall k: nat
      ensures w.hist.leaked[k] == 0
    {
      CarefulRun(w0, interval, events, k, 0);
    }
    assert w.hist.leaked == multiset{};
    assert w.link.flag == Closed ==> Outstanding(w.link) == multiset{};
  }

  /** Both closing steps leave nothing outstanding, in careful runs or not. */
  lemma ClosingRetiresAll(w: World)
    requires Balanced(w)
    ensures StopConn(w).link.flag == Closed && HandleClose(w).link.flag == Closed
    ensures Outstanding(StopConn(w).link) == multiset{} && Outstanding(HandleClose(w).link) == multiset{}
    ensures StopConn(w).hist.requests == Outcomes(StopConn(w).hist) + w.hist.leaked
    ensures HandleClose(w).hist.requests == Outcomes(HandleClose(w).hist) + w.hist.leaked
  {
    var none: map<nat, Pending> := map[];
    assert none.Keys == {};
    CloseBalances(w);
  }

  /** A closed link stays exactly as it is, whatever happens. */
  lemma {:induction false} ClosedAbsorbs(w: World, interval: nat, events: seq<Event>)
    requires Balanced(w) && w.link.flag == Closed && IsRun(w, interval, events)
    ensures Run(w, interval, events) == w
    decreases |events|
  {
    if events != [] {
      ClosedStep(w, interval, events[0].step, events[0].now);
      ClosedAbsorbs(w, interval, events[1..]);
    }
  }

  lemma ClosedStep(w: World, interval: nat, step: Step, now: int)
    requires Balanced(w) && w.link.flag == Closed && Possible(w.link, step)
    ensures Next(w, interval, step, now) == w
  {
    var none: map<nat, Pending> := map[];
    assert none.Keys == {};
    assert NotifyAll(w).link == w.link;
    assert NotifyAll(w).hist == w.hist;
  }

  // ----- without distinct numbers -----

  /** Two requests with one number, both sent at once, then the link is stopped: the second never meets an outcome. */
  lemma SharedNumberLosesARequest(start: int, interval: nat, now: int)
    ensures var once := Event(Send(Probe(), 5, Sent(12)), now);
            var events := [once, once, Event(Stop, now)];
            && IsRun(Started(true, start), interval, events)
            && var h := Run(Started(true, start), interval, events).hist;
               h.requests == multiset{1, 1} && Outcomes(h) == multiset{1} && h.leaked == multiset{1}
  {
    var w0 := Started(true, start);
    var once := Event(Send(Probe(), 5, Sent(12)), now);
    var w1, w2 := FirstSmall(start, now), SecondSmall(start, now);
    SmallSends(start, now);
    var w3 := StopConn(w2);
    assert map[1 := Pending(Probe(), 12, 5, now)].Keys == {1};
    RunOfThree(w0, interval, once, once, Event(Stop, now));
  }

  function FirstSmall(start: int, now: int): World {
    SendMsg(Started(true, start), Probe(), 5, Sent(12), now).0
  }

  function SecondSmall(start: int, now: int): World {
    SendMsg(FirstSmall(start, now), Probe(), 5, Sent(12), now).0
  }

  lemma SmallSends(start: int, now: int)
    ensures var p, w1, w2 := Pending(Probe(), 12, 5, now), FirstSmall(start, now), SecondSmall(start, now);
            && w1.link == Started(true, start).link.(waits := map[1 := p]) == w2.link
            && w1.hist.requests == multiset{1} && w1.hist.leaked == multiset{}
            && w2.hist.requests == multiset{1, 1} && w2.hist.leaked == multiset{1}
            && Outcomes(w2.hist) == multiset{}
  {
    assert TransNo(Probe()) == 1 && PacketLength(Probe()) == 12;
  }

  lemma RunOfThree(w: World, interval: nat, a: Event, b: Event, c: Event)
    requires Possible(w.link, a.step)
    requires var w1 := Next(w, interval, a.step, a.now);
             Possible(w1.link, b.step) && Possible(Next(w1, interval, b.step, b.now).link, c.step)
    ensures IsRun(w, interval, [a, b, c])
    ensures Run(w, interval, [a, b, c])
         == Next(Next(Next(w, interval, a.step, a.now), interval, b.step, b.now), interval, c.step, c.now)
  {
    var w1 := Next(w, interval, a.step, a.now);
    var w2 := Next(w1, interval, b.step, b.now);
    var w3 := Next(w2, interval, c.step, c.now);
    assert Run(w3, interval, []) == w3;
    assert [c][1..] == [];
    assert Run(w2, interval, [c]) == w3;
    assert [b, c][1..] == [c];
    assert Run(w1, interval, [b, c]) == w3;
    assert [a, b, c][1..] == [b, c];
  }

  // ----- exactly which requests are lost -----

  /** sendMsg takes this message, and as a request. */
  predicate Accepts(l: Link, msg: Frame, timeout: nat, res: SendResult) {
    && l.flag == Connected && PacketLength(msg) == |msg| && Taken(res) <= |msg|
    && (if l.queue == [] then !res.Broken? else |l.queue| < MAX_QUEUE_SIZE)
    && Awaits(timeout, TransNo(msg))
  }

  /** The application sends nothing. */
  ghost predicate Quiet(events: seq<Event>) {
    forall i | 0 <= i < |events| :: !events[i].step.Send?
  }

  lemma {:induction false} QuietIsCareful(w: World, interval: nat, events: seq<Event>)
    requires IsRun(w, interval, events) && Quiet(events)
    ensures IsCarefulRun(w, interval, events)
    decreases |events|
  {
    if events != [] {
      assert !events[0].step.Send?;
      assert forall i | 0 <= i < |events[1..]| :: events[1..][i] == events[i + 1];
      QuietIsCareful(Next(w, interval, events[0].step, events[0].now), interval, events[1..]);
    }
  }

  /** An accepted request is outstanding or lost at once. */
  lemma AcceptedCounts(w: World, msg: Frame, timeout: nat, res: SendResult, now: int)
    requires Balanced(w) && Accepts(w.link, msg, timeout, res)
    ensures var w1, tn := SendMsg(w, msg, timeout, res, now).0, TransNo(msg);
            && Balanced(w1) && w1.link.flag == Connected
            && w1.hist.leaked[tn] + Outstanding(w1.link)[tn] == w.hist.leaked[tn] + Outstanding(w.link)[tn] + 1
  {
    SendBalances(w, msg, timeout, res, now);
    AcceptedHistory(w, msg, timeout, res, now);
    BalancedAt(w, TransNo(msg));
    BalancedAt(SendMsg(w, msg, timeout, res, now).0, TransNo(msg));
  }

  lemma BalancedAt(w: World, tn: nat)
    requires Balanced(w)
    ensures w.hist.requests[tn] == Outcomes(w.hist)[tn] + w.hist.leaked[tn] + Outstanding(w.link)[tn]
  {
  }

  lemma AcceptedHistory(w: World, msg: Frame, timeout: nat, res: SendResult, now: int)
    requires Accepts(w.link, msg, timeout, res)
    ensures var w1 := SendMsg(w, msg, timeout, res, now).0;
            && w1.hist.requests == w.hist.requests + multiset{TransNo(msg)} && Outcomes(w1.hist) == Outcomes(w.hist)
            && w1.link.flag == Connected
  {
  }

  /** Send results that take everything that is queued. */
  function Everything(queue: seq<Pending>): seq<SendResult> {
    if queue == [] then [] else [Sent(|queue[0].msg|)] + Everything(queue[1..])
  }

  lemma {:induction false} DrainsEverything(w: World, now: int)
    ensures var (w1, code) := Drain(w, Everything(w.link.queue), now);
            && code == Ok && w1.link.queue == [] && w1.link.flag == w.link.flag
            && w1.hist.requests == w.hist.requests && Outcomes(w1.hist) == Outcomes(w.hist)
    decreases |w.link.queue|
  {
    var q := w.link.queue;
    if q != [] {
      assert Everything(q)[1..] == Everything(q[1..]);
      DrainsEverything(SendRest(w, now), now);
    }
  }

  /** Once everything is sent, a number that was outstanding twice has lost one of its requests. */
  lemma SendingAllLoses(w: World, interval: nat, tn: nat, now: int)
    requires Balanced(w) && w.link.flag == Connected
    ensures var event := Event(Writable(false, Everything(w.link.queue)), now);
            && IsRun(w, interval, [event]) && Quiet([event])
            && Run(w, interval, [event]).hist.leaked[tn] + 1 >= w.hist.leaked[tn] + Outstanding(w.link)[tn]
  {
    var event := Event(Writable(false, Everything(w.link.queue)), now);
    var w1 := Next(w, interval, event.step, now);
    DrainsEverything(w.(link := w.link.(writable := false)), now);
    StepBalances(w, interval, event.step, now);
    assert Run(w1, interval, []) == w1 && [event][1..] == [];
    BalancedAt(w, tn);
    BalancedAt(w1, tn);
    assert Requests(w1.link.queue) == multiset{};
    assert multiset(w1.link.waits.Keys)[tn] <= 1;
  }

  /** An accepted request can be sure not to be lost, however its sends go and whatever else happens before the
      application sends again, if and only if its number was free. This covers both ways to send it, at once and
      through the queue. */
  lemma LostExactlyWhenTaken(w: World, interval: nat, msg: Frame, timeout: nat, res: SendResult, now: int)
    requires Balanced(w) && Accepts(w.link, msg, timeout, res)
    ensures var w1, tn := SendMsg(w, msg, timeout, res, now).0, TransNo(msg);
            (forall events | IsRun(w1, interval, events) && Quiet(events) ::
               Run(w1, interval, events).hist.leaked[tn] == w.hist.leaked[tn])
            <==> UsesFreeNumber(w.link, Send(msg, timeout, res))
  {
    var w1, tn, lost := SendMsg(w, msg, timeout, res, now).0, TransNo(msg), w.hist.leaked[TransNo(msg)];
    AcceptedCounts(w, msg, timeout, res, now);
    if tn in Outstanding(w.link) {
      SendingAllLoses(w1, interval, tn, now);
    } else {
      SendAlone(w, msg, timeout, res, now, tn, lost);
      forall events | IsRun(w1, interval, events) && Quiet(events)
        ensures Run(w1, interval, events).hist.leaked[tn] == lost
      {
        QuietIsCareful(w1, interval, events);
        CarefulRun(w1, interval, events, tn, lost);
      }
    }
  }
}
