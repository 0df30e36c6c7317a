/** When the heartbeat timer gives a peer up. */
module VmsHeartbeat {
  import opened VmsFrames
  import opened VmsLink
  import opened VmsRuns

  /** Intervals for which the code's 32-bit products do not wrap. */
  predicate SaneInterval(interval: nat) {
    1 <= interval && (interval - WORK_INTERVAL) * TIMEOUT_TIMES < 0x8000_0000
  }

  predicate Monotone(t: int, events: seq<Event>)
    decreases |events|
  {
    events == [] || (t <= events[0].now && Monotone(events[0].now, events[1..]))
  }

  /** At time t: n misses since the counter was reset took at least n - 1 intervals. */
  ghost predicate Paced(w: World, interval: nat, t: int) {
    && w.hist.resetAt <= t && w.link.lastRecv <= t
    && (w.link.flag == Connected ==> w.link.misses <= TIMEOUT_TIMES)
    && (w.link.misses > 0 ==> w.link.lastRecv - w.hist.resetAt >= (w.link.misses - 1) * interval)
  }

  lemma {:induction false} DrainPaced(w: World, results: seq<SendResult>, now: int)
    ensures var w1 := Drain(w, results, now).0;
            && w1.link.misses == w.link.misses && w1.link.lastRecv == w.link.lastRecv
            && w1.hist.resetAt == w.hist.resetAt && w1.link.flag == w.link.flag
    decreases |w.link.queue|
  {
    if w.link.queue != [] {
      DrainPaced(SendRest(w, now), if results == [] then [] else results[1..], now);
    }
  }

  lemma RecvPaced(w: World, interval: nat, res: RecvResult, now: int, t: int)
    requires Paced(w, interval, t) && t <= now
    ensures var w1 := CloseOnFail(HandleRecv(w, res, now));
            && Paced(w1, interval, now) && w1.link.flag in {w.link.flag, Closed}
            && (w1.link.flag in {Idle, Connecting} ==> w1 == w)
  {
    if w.link.flag == Connected && |w.link.buff| < MAX_RECV_BUFF && res.Chunk? {
      var w1 := World(w.link.(misses := 0), w.hist.(resetAt := now));
      TakeFramesEffect(w1.(hist := w1.hist.(received := w1.hist.received + res.bytes)),
                       Split(w.link.buff + res.bytes).frames, now);
    }
  }

  lemma WritablePaced(w: World, interval: nat, connects: bool, results: seq<SendResult>, now: int, t: int)
    requires Paced(w, interval, t) && t <= now && (w.link.flag == Connecting ==> w.link.misses == 0)
    ensures var w1 := CloseOnFail(HandleSend(w, connects, results, now));
            && Paced(w1, interval, now) && (w1.link.flag == ConnTimeout ==> w.link.flag == ConnTimeout)
            && (w1.link.flag in {Idle, Connecting} ==> w1 == w)
  {
    if w.link.flag == Connected {
      DrainPaced(w.(link := w.link.(writable := false)), results, now);
    }
  }

  lemma HeartbeatPaced(w: World, interval: nat, res: SendResult, now: int)
    requires Taken(res) <= HEADER_SIZE && w.link.flag == Connected
    ensures var w1 := SendHeartbeat(w, interval, res, now);
            && w1.link.misses == w.link.misses && w1.link.lastRecv == w.link.lastRecv
            && w1.hist.resetAt == w.hist.resetAt && w1.link.flag in {Connected, Closing}
  {
  }

  lemma CountsOneInterval(l: Link, resetAt: int, interval: nat, now: int)
    requires SaneInterval(interval) && l.lastRecv <= now && resetAt <= now
    requires l.misses > 0 ==> l.lastRecv - resetAt >= (l.misses - 1) * interval
    ensures var l1 := CountMisses(l, interval, now);
            && l1.lastRecv <= now && l1 == l.(misses := l1.misses, lastRecv := l1.lastRecv)
            && l.misses <= l1.misses <= l.misses + 1
            && (l1.misses > 0 ==> l1.lastRecv - resetAt >= (l1.misses - 1) * interval)
  {
    assert l.misses * interval == (l.misses - 1) * interval + interval;
  }

  lemma TickPaced(w: World, interval: nat, res: SendResult, now: int, t: int)
    requires SaneInterval(interval) && Paced(w, interval, t) && t <= now && Taken(res) <= HEADER_SIZE
    ensures var w1 := HandleTimeout(w, interval, res, now);
            && Paced(w1, interval, now) && (w1.link.flag in {Idle, Connecting} ==> w1 == w)
            && (w1.link.flag == ConnTimeout && w.link.flag != ConnTimeout ==> now - w1.hist.resetAt >= 3 * interval)
  {
    if w.link.flag == Connected {
      CountsOneInterval(w.link, w.hist.resetAt, interval, now);
      var l := CountMisses(w.link, interval, now);
      HeartbeatPaced(w.(link := l), interval, res, now);
      assert l.misses == 4 ==> (l.misses - 1) * interval == 3 * interval;
    }
  }

  /** The invariant of every run: paced misses, and none while the connection is not up. */
  ghost predicate Timed(w: World, interval: nat, t: int) {
    Paced(w, interval, t) && (w.link.flag in {Idle, Connecting} ==> w.link.misses == 0)
  }

  lemma CloseTimed(w: World, interval: nat, now: int, t: int)
    requires Timed(w, interval, t) && t <= now
    ensures Timed(HandleClose(w), interval, now) && Timed(StopConn(w), interval, now)
    ensures HandleClose(w).link.flag == Closed && StopConn(w).link.flag == Closed
  {
  }

  lemma SendTimed(w: World, interval: nat, msg: Frame, timeout: nat, res: SendResult, now: int, t: int)
    requires Timed(w, interval, t) && t <= now && Taken(res) <= |msg|
    ensures var w1 := SendMsg(w, msg, timeout, res, now).0;
            Timed(w1, interval, now) && (w1.link.flag == ConnTimeout ==> w.link.flag == ConnTimeout)
  {
    SendPaced(w, msg, timeout, res, now);
  }

  lemma StepTimed(w: World, interval: nat, step: Step, now: int, t: int)
    requires SaneInterval(interval) && Timed(w, interval, t) && t <= now && Possible(w.link, step)
    ensures var w1 := Next(w, interval, step, now);
            && Timed(w1, interval, now)
            && (w1.link.flag == ConnTimeout && w.link.flag != ConnTimeout ==> now - w1.hist.resetAt >= 3 * interval)
  {
    match step
    case Send(msg, timeout, res) => SendTimed(w, interval, msg, timeout, res, now, t);
    case Readable(res) => RecvPaced(w, interval, res, now, t);
    case Writable(connects, results) => WritablePaced(w, interval, connects, results, now, t);
    case Tick(res) => TickPaced(w, interval, res, now, t);
    case ErrorEvent => CloseTimed(w, interval, now, t);
    case Stop => CloseTimed(w, interval, now, t);
  }

  lemma SendPaced(w: World, msg: Frame, timeout: nat, res: SendResult, now: int)
    requires Taken(res) <= |msg|
    ensures var w1 := SendMsg(w, msg, timeout, res, now).0;
            && w1.link.misses == w.link.misses && w1.link.lastRecv == w.link.lastRecv
            && w1.hist.resetAt == w.hist.resetAt
            && (w1.link.flag == w.link.flag || (w.link.flag == Connected && w1.link.flag == Closing))
  {
  }

  function TimeAfter(t: int, events: seq<Event>): int {
    if events == [] then t else events[|events| - 1].now
  }

  lemma {:induction false} RunTimed(w: World, interval: nat, events: seq<Event>, t: int)
    requires SaneInterval(interval) && Timed(w, interval, t) && IsRun(w, interval, events) && Monotone(t, events)
    ensures Timed(Run(w, interval, events), interval, TimeAfter(t, events))
    decreases |events|
  {
    if events != [] {
      StepTimed(w, interval, events[0].step, events[0].now, t);
      RunTimed(Next(w, interval, events[0].step, events[0].now), interval, events[1..], events[0].now);
    }
  }

  /** In every run under a clock that never goes back, the event that marks the link CONNTIMEOUT comes at least three
      intervals after the miss counter was last reset. */
  lemma TimeoutIsLate(connected: bool, start: int, interval: nat, events: seq<Event>, last: Event)
    requires SaneInterval(interval) && Monotone(start, events) && TimeAfter(start, events) <= last.now
    requires IsRun(Started(connected, start), interval, events)
    requires var w := Run(Started(connected, start), interval, events);
             && Possible(w.link, last.step) && w.link.flag != ConnTimeout
             && Next(w, interval, last.step, last.now).link.flag == ConnTimeout
    ensures var w := Run(Started(connected, start), interval, events);
            last.now - Next(w, interval, last.step, last.now).hist.resetAt >= 3 * interval
  {
    RunTimed(Started(connected, start), interval, events, start);
    StepTimed(Run(Started(connected, start), interval, events), interval, last.step, last.now,
              TimeAfter(start, events));
  }

  // ----- the bound is met -----

  lemma QuietTick(w: World, interval: nat, now: int)
    requires SaneInterval(interval) && interval >= 2
    requires w.link.flag == Connected && w.link.queue == [] && w.link.waits == map[]
    requires w.link.lastRecv == now - interval && w.link.misses < TIMEOUT_TIMES
    ensures var w1 := Next(w, interval, Tick(Sent(12)), now);
            && w1.link.flag == Connected && w1.link.queue == [] && w1.link.waits == map[]
            && w1.link.lastRecv == now && w1.link.misses == w.link.misses + 1 && w1.hist.resetAt == w.hist.resetAt
  {
    assert PacketLength(Heartbeat()) == 12;
  }

  /** With an interval of two or more, some run under a monotone clock is given up by its last event exactly three
      intervals after the last reset. */
  lemma BoundIsMet(interval: nat) returns (events: seq<Event>, last: Event)
    requires SaneInterval(interval) && interval >= 2
    ensures IsRun(Started(true, 0), interval, events) && Monotone(0, events) && TimeAfter(0, events) <= last.now
    ensures var w := Run(Started(true, 0), interval, events);
            && w.link.flag == Connected && Possible(w.link, last.step)
            && Next(w, interval, last.step, last.now).link.flag == ConnTimeout
            && last.now - Next(w, interval, last.step, last.now).hist.resetAt == 3 * interval
  {
    var i := interval as int;
    var w0 := Started(true, 0);
    var e1, e2 := Event(Readable(RecvBusy), i), Event(Tick(Sent(12)), i);
    var e3, e4 := Event(Tick(Sent(12)), 2 * i), Event(Tick(Sent(12)), 3 * i);
    var w1 := Next(w0, interval, e1.step, i);
    QuietTick(w1, interval, i);
    var w2 := Next(w1, interval, e2.step, i);
    QuietTick(w2, interval, 2 * i);
    var w3 := Next(w2, interval, e3.step, 2 * i);
    QuietTick(w3, interval, 3 * i);
    var w4 := Next(w3, interval, e4.step, 3 * i);
    events, last := [e1, e2, e3, e4], Event(Tick(Busy), 4 * i);
    FourSteps(w0, interval, e1, e2, e3, e4);
  }

  lemma FourSteps(w0: World, interval: nat, e1: Event, e2: Event, e3: Event, e4: Event)
    requires Possible(w0.link, e1.step)
    requires var w1 := Next(w0, interval, e1.step, e1.now);
             Possible(w1.link, e2.step) && var w2 := Next(w1, interval, e2.step, e2.now);
             Possible(w2.link, e3.step) && Possible(Next(w2, interval, e3.step, e3.now).link, e4.step)
    requires 0 <= e1.now <= e2.now <= e3.now <= e4.now
    ensures IsRun(w0, interval, [e1, e2, e3, e4]) && Monotone(0, [e1, e2, e3, e4])
    ensures var w2 := Next(Next(w0, interval, e1.step, e1.now), interval, e2.step, e2.now);
            var w3 := Next(w2, interval, e3.step, e3.now);
            Run(w0, interval, [e1, e2, e3, e4]) == Next(w3, interval, e4.step, e4.now)
  {
    var w1 := Next(w0, interval, e1.step, e1.now);
    var w2 := Next(w1, interval, e2.step, e2.now);
    var w3 := Next(w2, interval, e3.step, e3.now);
    var w4 := Next(w3, interval, e4.step, e4.now);
    assert Run(w4, interval, []) == w4;
    assert [e1] + [e2, e3, e4] == [e1, e2, e3, e4] && [e2] + [e3, e4] == [e2, e3, e4];
    assert [e3] + [e4] == [e3, e4] && [e4] + [] == [e4];
    RunStep(w3, interval, e4, []);
    RunStep(w2, interval, e3, [e4]);
    RunStep(w1, interval, e2, [e3, e4]);
    RunStep(w0, interval, e1, [e2, e3, e4]);
    MonotoneStep(e3.now, e4, []);
    MonotoneStep(e2.now, e3, [e4]);
    MonotoneStep(e1.now, e2, [e3, e4]);
    MonotoneStep(0, e1, [e2, e3, e4]);
  }

  lemma MonotoneStep(t: int, e: Event, more: seq<Event>)
    requires t <= e.now && Monotone(e.now, more)
    ensures Monotone(t, [e] + more)
  {
    assert ([e] + more)[1..] == more;
  }
}
