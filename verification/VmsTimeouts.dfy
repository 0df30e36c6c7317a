/** When the timer gives up waiting for a response. */
module VmsTimeouts {
  import opened VmsFrames
  import opened VmsLink
  import opened VmsRuns
  import opened VmsOutcomes
  import opened VmsHeartbeat

  /** Request k waits, with these fields. */
  predicate WaitsAs(w: World, k: nat, p: Pending) {
    k in w.link.waits && w.link.waits[k] == p
  }

  // ----- one step -----

  lemma {:induction false} DrainKeepsWaits(w: World, results: seq<SendResult>, now: int, k: nat)
    ensures var w1 := Drain(w, results, now).0;
            && (k in w.link.waits ==> WaitsAs(w1, k, w.link.waits[k]))
            && w1.hist.answered == w.hist.answered && w1.hist.timedOut == w.hist.timedOut
    decreases |w.link.queue|
  {
    if w.link.queue != [] {
      DrainKeepsWaits(SendRest(w, now), if results == [] then [] else results[1..], now, k);
    }
  }

  lemma {:induction false} FramesKeepWaits(w: World, fs: seq<Frame>, now: int, k: nat)
    ensures var w1 := TakeFrames(w, fs, now);
            && w1.hist.answered[k] >= w.hist.answered[k] && w1.hist.timedOut == w.hist.timedOut
            && (k in w.link.waits ==> w1.hist.answered[k] > w.hist.answered[k] || WaitsAs(w1, k, w.link.waits[k]))
    decreases |fs|
  {
    if fs != [] {
      FramesKeepWaits(TakeFrame(w, fs[0], now), fs[1..], now, k);
    }
  }

  lemma RecvKeepsWaits(w: World, res: RecvResult, now: int, k: nat)
    ensures var w1 := HandleRecv(w, res, now).0;
            && w1.hist.answered[k] >= w.hist.answered[k] && w1.hist.timedOut == w.hist.timedOut
            && (k in w.link.waits ==> w1.hist.answered[k] > w.hist.answered[k] || WaitsAs(w1, k, w.link.waits[k]))
  {
    if w.link.flag == Connected && |w.link.buff| < MAX_RECV_BUFF && res.Chunk? {
      var w1 := World(w.link.(misses := 0), w.hist.(resetAt := now, received := w.hist.received + res.bytes));
      FramesKeepWaits(w1, Split(w.link.buff + res.bytes).frames, now, k);
    }
  }

  /** Unless a response comes or the link closes, no event but a tick touches a waiting request. */
  lemma StepKeepsWait(w: World, interval: nat, step: Step, now: int, k: nat)
    requires Balanced(w) && Possible(w.link, step) && k in w.link.waits && !step.Tick?
    ensures var w1 := Next(w, interval, step, now);
            || w1.link.flag == Closed || w1.hist.answered[k] > w.hist.answered[k]
            || (WaitsAs(w1, k, w.link.waits[k]) && w1.hist.timedOut[k] == w.hist.timedOut[k])
  {
    match step
    case Send(msg, timeout, res) => SendKeepsWaits(w, msg, timeout, res, now, k);
    case Readable(res) => RecvKeepsWaits(w, res, now, k);
    case Writable(connects, results) => DrainKeepsWaits(w.(link := w.link.(writable := false)), results, now, k);
    case ErrorEvent =>
    case Stop =>
  }

  lemma SendKeepsWaits(w: World, msg: Frame, timeout: nat, res: SendResult, now: int, k: nat)
    requires Taken(res) <= |msg|
    ensures var w1 := SendMsg(w, msg, timeout, res, now).0;
            && (k in w.link.waits ==> WaitsAs(w1, k, w.link.waits[k]))
            && w1.hist.answered == w.hist.answered && w1.hist.timedOut == w.hist.timedOut
  {
  }

  lemma HeartbeatKeepsWaits(w: World, interval: nat, res: SendResult, now: int)
    requires Taken(res) <= HEADER_SIZE
    ensures var w1 := SendHeartbeat(w, interval, res, now);
            && w1.link.waits == w.link.waits
            && w1.hist.answered == w.hist.answered && w1.hist.timedOut == w.hist.timedOut
  {
  }

  /** What a tick does to a waiting request: it expires, is restarted after a clock change, or goes on waiting. */
  lemma TickWait(w: World, interval: nat, res: SendResult, now: int, k: nat)
    requires w.link.flag == Connected && Taken(res) <= HEADER_SIZE && k in w.link.waits
    ensures var p, w1 := w.link.waits[k], HandleTimeout(w, interval, res, now);
            if w1.link.flag == ConnTimeout then WaitsAs(w1, k, p) && w1.hist.timedOut[k] == w.hist.timedOut[k]
            else if Expired(p, interval, now) then k !in w1.link.waits && w1.hist.timedOut[k] == w.hist.timedOut[k] + 1
            else WaitsAs(w1, k, Refreshed(p, interval, now)) && w1.hist.timedOut[k] == w.hist.timedOut[k]
  {
    var l := CountMisses(w.link, interval, now);
    HeartbeatKeepsWaits(w.(link := l), interval, res, now);
    var w1 := SendHeartbeat(w.(link := l), interval, res, now);
    assert multiset(ExpiredOf(w1.link.waits, interval, now))[k]
        == if Expired(w.link.waits[k], interval, now) then 1 else 0;
  }

  // ----- outcomes only accumulate -----

  lemma StepGrows(w: World, interval: nat, step: Step, now: int, k: nat)
    requires Possible(w.link, step)
    ensures var w1 := Next(w, interval, step, now);
            w1.hist.answered[k] >= w.hist.answered[k] && w1.hist.timedOut[k] >= w.hist.timedOut[k]
  {
    match step
    case Send(msg, timeout, res) => SendKeepsWaits(w, msg, timeout, res, now, k);
    case Readable(res) => RecvKeepsWaits(w, res, now, k);
    case Writable(connects, results) => DrainKeepsWaits(w.(link := w.link.(writable := false)), results, now, k);
    case Tick(res) => HeartbeatKeepsWaits(w.(link := CountMisses(w.link, interval, now)), interval, res, now);
    case ErrorEvent =>
    case Stop =>
  }

  lemma {:induction false} RunGrows(w: World, interval: nat, events: seq<Event>, k: nat)
    requires IsRun(w, interval, events)
    ensures var w1 := Run(w, interval, events);
            w1.hist.answered[k] >= w.hist.answered[k] && w1.hist.timedOut[k] >= w.hist.timedOut[k]
    decreases |events|
  {
    if events != [] {
      StepGrows(w, interval, events[0].step, events[0].now, k);
      RunGrows(Next(w, interval, events[0].step, events[0].now), interval, events[1..], k);
    }
  }

  predicate Down(f: Flag) {
    f == ConnTimeout || f == Closing || f == Closed
  }

  lemma {:induction false} DrainKeepsFlag(w: World, results: seq<SendResult>, now: int)
    ensures Drain(w, results, now).0.link.flag == w.link.flag
    decreases |w.link.queue|
  {
    if w.link.queue != [] {
      DrainKeepsFlag(SendRest(w, now), if results == [] then [] else results[1..], now);
    }
  }

  lemma StepFlag(w: World, interval: nat, step: Step, now: int)
    requires Possible(w.link, step)
    ensures var f := Next(w, interval, step, now).link.flag;
            (Down(w.link.flag) ==> Down(f)) && (w.link.flag == Connected ==> f == Connected || Down(f))
  {
    match step
    case Send(msg, timeout, res) =>
    case Readable(res) =>
      if w.link.flag == Connected && |w.link.buff| < MAX_RECV_BUFF && res.Chunk? {
        var w1 := World(w.link.(misses := 0), w.hist.(resetAt := now, received := w.hist.received + res.bytes));
        TakeFramesEffect(w1, Split(w.link.buff + res.bytes).frames, now);
      }
    case Writable(connects, results) => DrainKeepsFlag(w.(link := w.link.(writable := false)), results, now);
    case Tick(res) =>
    case ErrorEvent =>
    case Stop =>
  }

  lemma {:induction false} RunStaysDown(w: World, interval: nat, events: seq<Event>)
    requires IsRun(w, interval, events) && Down(w.link.flag)
    ensures Down(Run(w, interval, events).link.flag)
    decreases |events|
  {
    if events != [] {
      StepFlag(w, interval, events[0].step, events[0].now);
      RunStaysDown(Next(w, interval, events[0].step, events[0].now), interval, events[1..]);
    }
  }

  // ----- long waits -----

  /** A request that waits longer than three heartbeat intervals is never timed out by the timer: in every run it goes
      on waiting until a response comes or the link is closed. */
  lemma {:induction false} LongWaitNeverExpires(w: World, interval: nat, events: seq<Event>, k: nat)
    requires Balanced(w) && IsRun(w, interval, events)
    requires k in w.link.waits && w.link.waits[k].timeout > 3 * interval
    requires Run(w, interval, events).link.flag != Closed
    requires Run(w, interval, events).hist.answered[k] == w.hist.answered[k]
    ensures var w1 := Run(w, interval, events);
            && k in w1.link.waits && w1.link.waits[k] == w.link.waits[k].(sendTime := w1.link.waits[k].sendTime)
            && w1.hist.timedOut[k] == w.hist.timedOut[k]
    decreases |events|
  {
    if events != [] {
      var step, now := events[0].step, events[0].now;
      var w1 := Next(w, interval, step, now);
      StepBalances(w, interval, step, now);
      RunGrows(w1, interval, events[1..], k);
      StepGrows(w, interval, step, now, k);
      if w1.link.flag == Closed {
        ClosedAbsorbs(w1, interval, events[1..]);
      } else {
        LongWaitStep(w, interval, step, now, k);
        LongWaitNeverExpires(w1, interval, events[1..], k);
      }
    }
  }

  lemma LongWaitStep(w: World, interval: nat, step: Step, now: int, k: nat)
    requires Balanced(w) && Possible(w.link, step) && k in w.link.waits && w.link.waits[k].timeout > 3 * interval
    requires var w1 := Next(w, interval, step, now); w1.link.flag != Closed && w1.hist.answered[k] == w.hist.answered[k]
    ensures var w1 := Next(w, interval, step, now);
            && k in w1.link.waits && w1.link.waits[k] == w.link.waits[k].(sendTime := w1.link.waits[k].sendTime)
            && w1.hist.timedOut[k] == w.hist.timedOut[k]
  {
    if step.Tick? {
      if w.link.flag == Connected {
        TickWait(w, interval, step.tres, now, k);
      }
    } else {
      StepKeepsWait(w, interval, step, now, k);
    }
  }

  // ----- short waits -----

  /** Ticks come at most `gap` seconds apart: no event happens later than that after the last one. */
  predicate Ticking(last: int, gap: nat, events: seq<Event>)
    decreases |events|
  {
    events == [] ||
    (events[0].now <= last + gap && Ticking(if events[0].step.Tick? then events[0].now else last, gap, events[1..]))
  }

  /** A request whose timeout leaves room for one gap between ticks within three heartbeat intervals is timed out by
      the timer, if no response comes and the link stays up: at the latest one gap after its time is over.
      `last` is a tick before it was due. */
  lemma {:induction false} ShortWaitExpires(w: World, interval: nat, events: seq<Event>, k: nat, t: int, last: int,
                                            gap: nat)
    requires Balanced(w) && IsRun(w, interval, events) && k in w.link.waits
    requires var p := w.link.waits[k];
             && p.timeout + gap <= 3 * interval + 1
             && p.sendTime <= t && last - p.sendTime < p.timeout && t <= last + gap
             && p.sendTime + p.timeout + gap <= TimeAfter(t, events)
    requires Monotone(t, events) && Ticking(last, gap, events)
    requires w.link.flag == Connected && Run(w, interval, events).link.flag == Connected
    ensures var w1 := Run(w, interval, events);
            w1.hist.answered[k] > w.hist.answered[k] || w1.hist.timedOut[k] > w.hist.timedOut[k]
    decreases |events|
  {
    var p, step, now := w.link.waits[k], events[0].step, events[0].now;
    var w1 := Next(w, interval, step, now);
    StepBalances(w, interval, step, now);
    StepFlag(w, interval, step, now);
    StepGrows(w, interval, step, now, k);
    RunGrows(w1, interval, events[1..], k);
    if Down(w1.link.flag) {
      RunStaysDown(w1, interval, events[1..]);
    }
    ShortWaitStep(w, interval, step, now, k, last, gap);
    if w1.hist.answered[k] == w.hist.answered[k] && w1.hist.timedOut[k] == w.hist.timedOut[k] {
      assert TimeAfter(now, events[1..]) == TimeAfter(t, events);
      ShortWaitExpires(w1, interval, events[1..], k, now, if step.Tick? then now else last, gap);
    }
  }

  lemma ShortWaitStep(w: World, interval: nat, step: Step, now: int, k: nat, last: int, gap: nat)
    requires Balanced(w) && Possible(w.link, step) && k in w.link.waits && w.link.flag == Connected
    requires var p := w.link.waits[k];
             && p.timeout + gap <= 3 * interval + 1
             && p.sendTime <= now <= last + gap && last - p.sendTime < p.timeout
    requires Next(w, interval, step, now).link.flag == Connected
    ensures var p, w1 := w.link.waits[k], Next(w, interval, step, now);
            || w1.hist.answered[k] > w.hist.answered[k] || w1.hist.timedOut[k] > w.hist.timedOut[k]
            || (WaitsAs(w1, k, p) && (step.Tick? ==> now - p.sendTime < p.timeout))
  {
    if step.Tick? {
      TickWait(w, interval, step.tres, now, k);
    } else {
      StepKeepsWait(w, interval, step, now, k);
    }
  }

  // ----- exactly which waits the timer ends -----

  /** A run from time t on, under a clock that does not go back, in which the timer ends the wait of request k: no
      response comes and the link is still up at the end. */
  ghost predicate TimesOut(w: World, interval: nat, k: nat, t: int, events: seq<Event>) {
    && IsRun(w, interval, events) && Monotone(t, events)
    && var w1 := Run(w, interval, events);
       && w1.link.flag == Connected && w1.hist.answered[k] == w.hist.answered[k]
       && w1.hist.timedOut[k] > w.hist.timedOut[k]
  }

  /** A tick on a link that is not about to be given up. */
  lemma TickKeepsUp(w: World, interval: nat, now: int)
    requires w.link.flag == Connected && w.link.misses < TIMEOUT_TIMES
    ensures var w1 := Next(w, interval, Tick(Busy), now);
            && w1.link.flag == Connected && w1.link.misses <= w.link.misses + 1
            && w1.hist.answered == w.hist.answered
  {
    HeartbeatKeepsWaits(w.(link := CountMisses(w.link, interval, now)), interval, Busy, now);
  }

  /** While the clock has not jumped over the wait, one tick at its time or later ends it. */
  lemma InTime(w: World, interval: nat, k: nat, t: int) returns (events: seq<Event>)
    requires w.link.flag == Connected && w.link.misses < TIMEOUT_TIMES && k in w.link.waits
    requires var p := w.link.waits[k]; p.sendTime <= t <= p.sendTime + 3 * interval && p.timeout <= 3 * interval
    ensures TimesOut(w, interval, k, t, events)
  {
    var due := w.link.waits[k].sendTime + w.link.waits[k].timeout;
    var e := Event(Tick(Busy), if due < t then t else due);
    TickKeepsUp(w, interval, e.now);
    TickWait(w, interval, Busy, e.now, k);
    RunStep(w, interval, e, []);
    MonotoneStep(t, e, []);
    events := [e] + [];
  }

  /** After that one tick restamps the wait, and the new one can end in time. */
  lemma Overdue(w: World, interval: nat, k: nat, t: int) returns (events: seq<Event>)
    requires w.link.flag == Connected && w.link.misses + 1 < TIMEOUT_TIMES && k in w.link.waits
    requires var p := w.link.waits[k]; p.sendTime + 3 * interval < t && p.timeout <= 3 * interval
    ensures TimesOut(w, interval, k, t, events)
  {
    var e := Event(Tick(Busy), t);
    TickKeepsUp(w, interval, t);
    TickWait(w, interval, Busy, t, k);
    var more := InTime(Next(w, interval, e.step, t), interval, k, t);
    RunStep(w, interval, e, more);
    MonotoneStep(t, e, more);
    events := [e] + more;
  }

  /** The condition is exact: from a state at time t of a link that is up, the timer can end the wait of a request, if
      no response comes and the link stays up, if and only if its timeout is at most three heartbeat intervals. */
  lemma TimerEndsExactly(w: World, interval: nat, k: nat, t: int)
    requires Balanced(w) && w.link.flag == Connected && k in w.link.waits && w.link.waits[k].sendTime <= t
    ensures (exists events :: TimesOut(w, interval, k, t, events)) <==> w.link.waits[k].timeout <= 3 * interval
  {
    var p := w.link.waits[k];
    if p.timeout > 3 * interval {
      forall events | TimesOut(w, interval, k, t, events)
        ensures false
      {
        LongWaitNeverExpires(w, interval, events, k);
      }
    } else {
      var e := Event(Readable(RecvBusy), t);
      var w1 := Next(w, interval, e.step, t);
      var more := [];
      if t <= p.sendTime + 3 * interval {
        more := InTime(w1, interval, k, t);
      } else {
        more := Overdue(w1, interval, k, t);
      }
      RunStep(w, interval, e, more);
      MonotoneStep(t, e, more);
      assert TimesOut(w, interval, k, t, [e] + more);
    }
  }
}
