/** The timer in seconds: which waits a tick ends, and that it never ends one too early. */
module VmsTimers {
  import opened VmsFrames
  import opened VmsLink
  import opened VmsRuns
  import opened VmsOutcomes
  import opened VmsHeartbeat
  import opened VmsTimeouts

  /** Seconds between two readings of the clock, whichever is later. */
  function Apart(a: int, b: int): nat {
    if a >= b then a - b else b - a
  }

  // ----- waiting requests -----

  /** On a link that this tick does not give up, the wait of request k ends with a TIMEOUT callback exactly when its
      time is over and no more than three heartbeat intervals have passed. Otherwise it goes on with the same message
      and timeout; after more than three intervals it is counted from now on. */
  lemma TickEndsExactly(w: World, interval: nat, res: SendResult, now: int, k: nat)
    requires w.link.flag == Connected && Taken(res) <= HEADER_SIZE && k in w.link.waits && w.link.waits[k].timeout > 0
    requires Next(w, interval, Tick(res), now).link.flag != ConnTimeout
    ensures var p, w1 := w.link.waits[k], Next(w, interval, Tick(res), now);
            if p.timeout <= Apart(now, p.sendTime) <= 3 * interval then
              k !in w1.link.waits && w1.hist.timedOut[k] == w.hist.timedOut[k] + 1
            else
              && k in w1.link.waits && w1.hist.timedOut[k] == w.hist.timedOut[k]
              && w1.link.waits[k] == p.(sendTime := if Apart(now, p.sendTime) > 3 * interval then now else p.sendTime)
  {
    TickWait(w, interval, res, now, k);
  }

  /** Before its time a request goes on waiting, whatever else the application, the socket and the timer do. */
  lemma EarlyStep(w: World, interval: nat, step: Step, now: int, k: nat)
    requires Balanced(w) && Possible(w.link, step) && k in w.link.waits
    requires w.link.waits[k].sendTime <= now < w.link.waits[k].sendTime + w.link.waits[k].timeout
    requires var w1 := Next(w, interval, step, now); w1.link.flag != Closed && w1.hist.answered[k] == w.hist.answered[k]
    ensures var p, w1 := w.link.waits[k], Next(w, interval, step, now);
            && k in w1.link.waits && w1.link.waits[k] == p.(sendTime := w1.link.waits[k].sendTime)
            && p.sendTime <= w1.link.waits[k].sendTime <= now
            && w1.hist.timedOut[k] == w.hist.timedOut[k]
  {
    if step.Tick? {
      if w.link.flag == Connected {
        TickWait(w, interval, step.tres, now, k);
        if Next(w, interval, step, now).link.flag != ConnTimeout {
          TickEndsExactly(w, interval, step.tres, now, k);
        }
      }
    } else {
      StepKeepsWait(w, interval, step, now, k);
    }
  }

  /** No TIMEOUT callback of the timer comes too early: under a clock that does not go back, in every run that ends
      before `timeout` seconds have passed since request k was sent, it still waits, unless a response came or the link
      was closed. */
  lemma {:induction false} NeverEarly(w: World, interval: nat, events: seq<Event>, k: nat, t: int)
    requires Balanced(w) && IsRun(w, interval, events) && Monotone(t, events)
    requires k in w.link.waits && w.link.waits[k].sendTime <= t
    requires TimeAfter(t, events) < w.link.waits[k].sendTime + w.link.waits[k].timeout
    requires Run(w, interval, events).link.flag != Closed
    requires Run(w, interval, events).hist.answered[k] == w.hist.answered[k]
    ensures var p, w1 := w.link.waits[k], Run(w, interval, events);
            && k in w1.link.waits && w1.link.waits[k] == p.(sendTime := w1.link.waits[k].sendTime)
            && w1.hist.timedOut[k] == w.hist.timedOut[k]
    decreases |events|
  {
    if events != [] {
      var step, now := events[0].step, events[0].now;
      var w1 := Next(w, interval, step, now);
      StepBalances(w, interval, step, now);
      RunGrows(w1, interval, events[1..], k);
      StepGrows(w, interval, step, now, k);
      MonotoneEnds(now, events[1..]);
      assert TimeAfter(now, events[1..]) == TimeAfter(t, events);
      if w1.link.flag == Closed {
        ClosedAbsorbs(w1, interval, events[1..]);
      } else {
        EarlyStep(w, interval, step, now, k);
        NeverEarly(w1, interval, events[1..], k, now);
      }
    }
  }

  lemma {:induction false} MonotoneEnds(t: int, events: seq<Event>)
    requires Monotone(t, events)
    ensures t <= TimeAfter(t, events)
    decreases |events|
  {
    if events != [] {
      MonotoneEnds(events[0].now, events[1..]);
      assert TimeAfter(events[0].now, events[1..]) == TimeAfter(t, events);
    }
  }

  /** The time counts from when the last byte went out: a request sent at once waits from `now` on. */
  lemma SentWaitsFromNow(w: World, interval: nat, msg: Frame, timeout: nat, now: int)
    requires w.link.flag == Connected && w.link.queue == [] && PacketLength(msg) == |msg|
    requires timeout > 0 && TransNo(msg) < 0x8000 && TransNo(msg) !in w.link.waits
    ensures var w1 := Next(w, interval, Send(msg, timeout, Sent(|msg|)), now);
            w1.link.waits == w.link.waits[TransNo(msg) := Pending(msg, |msg|, timeout, now)]
  {
  }

  /** A request at the front of the queue waits from when its last byte goes out. */
  lemma DrainedWaitsFromNow(w: World, interval: nat, n: nat, now: int)
    requires w.link.flag == Connected && |w.link.queue| == 1
    requires var p := w.link.queue[0];
             p.sent + n >= |p.msg| && p.timeout > 0 && TransNo(p.msg) < 0x8000 && TransNo(p.msg) !in w.link.waits
    ensures var p, w1 := w.link.queue[0], Next(w, interval, Writable(false, [Sent(n)]), now);
            && w1.link.queue == [] && !w1.link.writable
            && w1.link.waits == w.link.waits[TransNo(p.msg) := Pending(p.msg, |p.msg|, p.timeout, now)]
  {
    assert w.link.queue[1..] == [] && [Sent(n)][1..] == [];
    var w0 := w.(link := w.link.(writable := false));
    assert Drain(w0, [Sent(n)], now) == Drain(SendRest(w0, now), [], now) == (SendRest(w0, now), Ok);
  }

  /** So a request that went out at time `now` is not timed out in less than `timeout` seconds. */
  lemma RequestHasItsTime(w: World, interval: nat, msg: Frame, timeout: nat, now: int, events: seq<Event>)
    requires Balanced(w) && w.link.flag == Connected && w.link.queue == [] && PacketLength(msg) == |msg|
    requires timeout > 0 && TransNo(msg) < 0x8000 && TransNo(msg) !in w.link.waits
    requires var w0 := Next(w, interval, Send(msg, timeout, Sent(|msg|)), now);
             && IsRun(w0, interval, events) && Monotone(now, events) && TimeAfter(now, events) < now + timeout
             && Run(w0, interval, events).link.flag != Closed
             && Run(w0, interval, events).hist.answered[TransNo(msg)] == w.hist.answered[TransNo(msg)]
    ensures var w0 := Next(w, interval, Send(msg, timeout, Sent(|msg|)), now);
            && TransNo(msg) in Run(w0, interval, events).link.waits
            && Run(w0, interval, events).hist.timedOut[TransNo(msg)] == w.hist.timedOut[TransNo(msg)]
  {
    SentWaitsFromNow(w, interval, msg, timeout, now);
    StepBalances(w, interval, Send(msg, timeout, Sent(|msg|)), now);
    NeverEarly(Next(w, interval, Send(msg, timeout, Sent(|msg|)), now), interval, events, TransNo(msg), now);
  }

  // ----- heartbeats -----

  /** A tick counts a miss when at least an interval, but at most three of them less three seconds, has passed since
      the last heartbeat or the last count, and the fourth miss in a row gives the link up. */
  lemma TickCountsExactly(w: World, interval: nat, res: SendResult, now: int)
    requires SaneInterval(interval) && w.link.flag == Connected && Taken(res) <= HEADER_SIZE
    ensures var quiet, w1 := Apart(now, w.link.lastRecv), Next(w, interval, Tick(res), now);
            && w1.link.misses == w.link.misses + (if interval <= quiet <= 3 * interval - 3 then 1 else 0)
            && w1.link.lastRecv == (if quiet >= interval then now else w.link.lastRecv)
            && (w1.link.flag == ConnTimeout <==> w1.link.misses > 3)
  {
    var l := CountMisses(w.link, interval, now);
    CountsExactly(w.link, interval, now);
    if l.misses <= 3 {
      HeartbeatPaced(w.(link := l), interval, res, now);
    }
  }

  lemma CountsExactly(l: Link, interval: nat, now: int)
    requires SaneInterval(interval)
    ensures var quiet, l1 := Apart(now, l.lastRecv), CountMisses(l, interval, now);
            && l1.misses == l.misses + (if interval <= quiet <= 3 * interval - 3 then 1 else 0)
            && l1.lastRecv == (if quiet >= interval then now else l.lastRecv)
            && l1 == l.(misses := l1.misses, lastRecv := l1.lastRecv)
  {
    SaneCasts(interval);
  }

  /** The casts to int32_t leave the intervals in use as they are. */
  lemma SaneCasts(interval: nat)
    requires SaneInterval(interval)
    ensures Int32((interval - WORK_INTERVAL) * TIMEOUT_TIMES) == 3 * interval - 3
    ensures Int32(interval - WORK_INTERVAL) == interval - 1
  {
  }

  lemma Int32Is(x: int)
    ensures -0x8000_0000 <= Int32(x) < 0x8000_0000 && (x - Int32(x)) % 0x1_0000_0000 == 0
  {
  }

  /** With an interval of zero the unsigned differences wrap: no silence is ever counted as a miss, and every tick hands
      out a heartbeat. */
  lemma ZeroInterval(w: World, res: SendResult, now: int)
    requires w.link.flag == Connected && w.link.misses <= 3 && Taken(res) <= HEADER_SIZE
    ensures var w1 := Next(w, 0, Tick(res), now);
            && w1.link.flag != ConnTimeout && w1.link.misses == w.link.misses
            && w1.link.lastRecv == now && w1.link.lastSend == now
  {
    assert Int32(-3) == -3 && Int32(-1) == -1;
    assert CountMisses(w.link, 0, now) == w.link.(lastRecv := now);
  }

  /** A tick hands out a heartbeat when the last one is an interval old or the clock went back. Either way, on a link
      that is not given up, the last one then is less than an interval old. */
  lemma TickBeatsExactly(w: World, interval: nat, res: SendResult, now: int)
    requires SaneInterval(interval) && w.link.flag == Connected && Taken(res) <= HEADER_SIZE
    requires Next(w, interval, Tick(res), now).link.flag != ConnTimeout
    ensures var w1 := Next(w, interval, Tick(res), now);
            if now - w.link.lastSend >= interval || now <= w.link.lastSend then
              && w1.link.lastSend == now
              && (w.link.queue == [] && !res.Broken? ==> w1.hist.accepted == w.hist.accepted + Beat())
              && (0 < |w.link.queue| < 2000 ==>
                    && w1.link.queue == w.link.queue + [Pending(Beat(), 0, 0, 0)]
                    && w1.hist.accepted == w.hist.accepted + Beat())
            else
              && w1.link.lastSend == w.link.lastSend && w1.link.queue == w.link.queue
              && w1.hist.accepted == w.hist.accepted
  {
    var w0 := w.(link := CountMisses(w.link, interval, now));
    CountsExactly(w.link, interval, now);
    BeatsExactly(w0, interval, res, now);
  }

  lemma BeatsExactly(w: World, interval: nat, res: SendResult, now: int)
    requires SaneInterval(interval) && w.link.flag == Connected && Taken(res) <= HEADER_SIZE
    ensures var w1 := SendHeartbeat(w, interval, res, now);
            if now - w.link.lastSend >= interval || now <= w.link.lastSend then
              && w1.link.lastSend == now
              && (w.link.queue == [] && !res.Broken? ==> w1.hist.accepted == w.hist.accepted + Beat())
              && (0 < |w.link.queue| < 2000 ==>
                    && w1.link.queue == w.link.queue + [Pending(Beat(), 0, 0, 0)]
                    && w1.hist.accepted == w.hist.accepted + Beat())
            else w1 == w
  {
    SaneCasts(interval);
    BeatSent(w.(link := w.link.(lastSend := now)), res, now);
  }

  lemma BeatSent(w: World, res: SendResult, now: int)
    requires w.link.flag == Connected && Taken(res) <= HEADER_SIZE
    ensures var w1 := SendMsg(w, Heartbeat(), 0, res, now).0;
            && w1.link.lastSend == w.link.lastSend
            && (w.link.queue == [] && !res.Broken? ==> w1.hist.accepted == w.hist.accepted + Beat())
            && (0 < |w.link.queue| < 2000 ==>
                  && w1.link.queue == w.link.queue + [Pending(Beat(), 0, 0, 0)]
                  && w1.hist.accepted == w.hist.accepted + Beat())
  {
    assert PacketLength(Beat()) == 12 && TransNo(Beat()) == 0;
  }

  /** Version 0x0100, type 2, number 0, length 12. */
  function Beat(): Frame {
    [0x00, 0x01, 0x02, 0x00, 0x00, 0x00, 0x00, 0x00, 0x0C, 0x00, 0x00, 0x00]
  }
}
