/** Which received bytes retire which request. */
module VmsResponses {
  import opened VmsFrames
  import opened VmsLink
  import opened VmsOutcomes
  import opened VmsRuns
  import opened VmsTimeouts
  import opened VmsWire

  /** The frame is no heartbeat, and bytes 6 and 7 hold k with the high bit set. */
  predicate AnswerTo(f: Frame, k: nat) {
    f[2..6] != [0x02, 0x00, 0x00, 0x00] && (f[6] as int) + 0x100 * (f[7] as int) == k + 0x8000
  }

  predicate Answered(fs: seq<Frame>, k: nat) {
    exists i | 0 <= i < |fs| :: AnswerTo(fs[i], k)
  }

  lemma HeartbeatBytes(f: Frame)
    ensures MsgType(f) == TYPE_HEARTBEAT <==> f[2..6] == [0x02, 0x00, 0x00, 0x00]
  {
    assert f[2..6] == [f[2], f[3], f[4], f[5]];
  }

  /** The frames of one chunk: request k is retired, once, if one of them answers it, and waits on as it was if none
      does. */
  lemma {:induction false} FramesRetireExactly(w: World, fs: seq<Frame>, now: int, k: nat)
    requires k in w.link.waits
    ensures var w1 := TakeFrames(w, fs, now);
            if Answered(fs, k) then k !in w1.link.waits && w1.hist.answered[k] == w.hist.answered[k] + 1
            else WaitsAs(w1, k, w.link.waits[k]) && w1.hist.answered[k] == w.hist.answered[k]
    decreases |fs|
  {
    if fs != [] {
      var w1 := TakeFrame(w, fs[0], now);
      HeartbeatBytes(fs[0]);
      assert forall i | 0 < i < |fs| :: fs[i] == fs[1..][i - 1];
      assert forall i | 0 <= i < |fs[1..]| :: fs[1..][i] == fs[i + 1];
      if AnswerTo(fs[0], k) {
        GoneStaysGone(w1, fs[1..], now, k);
      } else {
        FramesRetireExactly(w1, fs[1..], now, k);
      }
    }
  }

  lemma {:induction false} GoneStaysGone(w: World, fs: seq<Frame>, now: int, k: nat)
    requires k !in w.link.waits
    ensures var w1 := TakeFrames(w, fs, now); k !in w1.link.waits && w1.hist.answered[k] == w.hist.answered[k]
    decreases |fs|
  {
    if fs != [] {
      GoneStaysGone(TakeFrame(w, fs[0], now), fs[1..], now, k);
    }
  }

  /** So a chunk retires request k exactly if it completes a frame that answers it. */
  lemma ChunkRetiresExactly(w: World, c: seq<byte>, now: int, k: nat)
    requires w.link.flag == Connected && |w.link.buff| < MAX_RECV_BUFF && k in w.link.waits
    ensures var w1 := HandleRecv(w, Chunk(c), now).0;
            if Answered(Split(w.link.buff + c).frames, k) then
              k !in w1.link.waits && w1.hist.answered[k] == w.hist.answered[k] + 1
            else WaitsAs(w1, k, w.link.waits[k]) && w1.hist.answered[k] == w.hist.answered[k]
  {
    var w1 := World(w.link.(misses := 0), w.hist.(resetAt := now, received := w.hist.received + c));
    FramesRetireExactly(w1, Split(w.link.buff + c).frames, now, k);
  }

  /** The bytes of one message: its number with the high bit set answers the request of that number, and no message
      with another number, or of the heartbeat type, does. */
  lemma MessageRetiresExactly(w: World, c: seq<byte>, m: Message, now: int, k: nat)
    requires w.link.flag == Connected && |w.link.buff| < MAX_RECV_BUFF && k in w.link.waits
    requires Fits(m) && w.link.buff + c == Wire(m)
    ensures var w1 := Next0(w, c, now);
            && w1.link.flag == Connected
            && (if m.kind != 2 && m.number == k + 0x8000 then
                  k !in w1.link.waits && w1.hist.answered[k] == w.hist.answered[k] + 1
                else WaitsAs(w1, k, w.link.waits[k]) && w1.hist.answered[k] == w.hist.answered[k])
  {
    var f := Wire(m);
    WireReads(m);
    FirstIsCut(f, []);
    assert f + [] == f && [f] + [] == [f];
    HeartbeatBytes(f);
    ChunkRetiresExactly(w, c, now, k);
    assert Answered([f], k) == AnswerTo([f][0], k);
    TakesOneFrame(w, c, f, now);
  }

  /** What the event thread makes of a chunk. */
  function Next0(w: World, c: seq<byte>, now: int): World {
    CloseOnFail(HandleRecv(w, Chunk(c), now))
  }

  // ----- over whole runs -----

  lemma {:induction false} DrainReports(w: World, results: seq<SendResult>, now: int)
    ensures var w1 := Drain(w, results, now).0;
            && w1.hist == w.hist.(wire := w1.hist.wire, leaked := w1.hist.leaked) && w1.link.flag == w.link.flag
    decreases |w.link.queue|
  {
    if w.link.queue != [] {
      DrainReports(SendRest(w, now), if results == [] then [] else results[1..], now);
    }
  }

  /** Without sends of the application the requests stay the same ones, and outcomes only accumulate. */
  lemma QuietStep(w: World, interval: nat, step: Step, now: int)
    requires Possible(w.link, step) && !step.Send?
    ensures var w1 := Next(w, interval, step, now);
            w1.hist.requests == w.hist.requests && w.hist.failed <= w1.hist.failed
  {
    match step
    case Readable(res) =>
      if w.link.flag == Connected && |w.link.buff| < MAX_RECV_BUFF && res.Chunk? {
        var w1 := World(w.link.(misses := 0), w.hist.(resetAt := now, received := w.hist.received + res.bytes));
        TakeFramesEffect(w1, Split(w.link.buff + res.bytes).frames, now);
      }
    case Writable(connects, results) => DrainReports(w.(link := w.link.(writable := false)), results, now);
    case Tick(res) => HeartbeatReports(w.(link := CountMisses(w.link, interval, now)), interval, res, now);
    case ErrorEvent =>
    case Stop =>
  }

  lemma HeartbeatReports(w: World, interval: nat, res: SendResult, now: int)
    requires Taken(res) <= HEADER_SIZE
    ensures var w1 := SendHeartbeat(w, interval, res, now);
            w1.hist.requests == w.hist.requests && w1.hist.failed == w.hist.failed
  {
    assert w.hist.requests + multiset{} == w.hist.requests;
  }

  /** One request with number k at most is outstanding, and none of that number has been lost since. */
  ghost predicate Tracked(w: World, k: nat, lost: nat) {
    Balanced(w) && Alone(w, k, lost)
  }

  lemma TrackedStep(w: World, interval: nat, step: Step, now: int, k: nat, lost: nat)
    requires Tracked(w, k, lost) && Possible(w.link, step) && !step.Send?
    ensures var w1 := Next(w, interval, step, now);
            && Tracked(w1, k, lost)
            && Outcomes(w1.hist)[k] + Outstanding(w1.link)[k] == Outcomes(w.hist)[k] + Outstanding(w.link)[k]
            && w1.hist.failed[k] >= w.hist.failed[k]
            && w1.hist.answered[k] >= w.hist.answered[k] && w1.hist.timedOut[k] >= w.hist.timedOut[k]
  {
    StepBalances(w, interval, step, now);
    StepAlone(w, interval, step, now, k, lost);
    QuietStep(w, interval, step, now);
    StepGrows(w, interval, step, now, k);
    BalancedAt(w, k);
    BalancedAt(Next(w, interval, step, now), k);
  }

  /** A request that has met its outcome meets no other. */
  lemma {:induction false} RetiredForGood(w: World, interval: nat, events: seq<Event>, k: nat, lost: nat)
    requires Tracked(w, k, lost) && IsRun(w, interval, events) && Quiet(events) && Outstanding(w.link)[k] == 0
    ensures var w1 := Run(w, interval, events);
            && k !in w1.link.waits
            && w1.hist.answered[k] == w.hist.answered[k] && w1.hist.timedOut[k] == w.hist.timedOut[k]
    decreases |events|
  {
    if events == [] {
      assert multiset(w.link.waits.Keys)[k] == 0;
    } else {
      assert !events[0].step.Send?;
      assert forall i | 0 <= i < |events[1..]| :: events[1..][i] == events[i + 1];
      TrackedStep(w, interval, events[0].step, events[0].now, k, lost);
      RetiredForGood(Next(w, interval, events[0].step, events[0].now), interval, events[1..], k, lost);
    }
  }

  /** The messages delivered between two states of a run. */
  function News(w: World, w1: World): seq<Frame> {
    if |w.hist.delivered| <= |w1.hist.delivered| then w1.hist.delivered[|w.hist.delivered|..] else []
  }

  lemma {:induction false} PayloadAnswers(fs: seq<Frame>, k: nat)
    ensures Answered(Payload(fs), k) == Answered(fs, k)
  {
    if fs != [] {
      PayloadAnswers(fs[1..], k);
      HeartbeatBytes(fs[0]);
      AnsweredConcat([fs[0]], fs[1..], k);
      assert [fs[0]] + fs[1..] == fs;
      if MsgType(fs[0]) == TYPE_HEARTBEAT {
        assert [] + Payload(fs[1..]) == Payload(fs[1..]);
      } else {
        AnsweredConcat([fs[0]], Payload(fs[1..]), k);
      }
    }
  }

  lemma AnsweredConcat(a: seq<Frame>, b: seq<Frame>, k: nat)
    ensures Answered(a + b, k) <==> Answered(a, k) || Answered(b, k)
  {
    assert forall i | 0 <= i < |a| :: (a + b)[i] == a[i];
    assert forall i | 0 <= i < |b| :: (a + b)[|a| + i] == b[i];
  }

  /** Between w and w1 the wait of request k ended with an answer if a message that answers it was delivered; if none
      was, it was not answered, and it ended if and only if it was timed out. */
  ghost predicate AnsweredExactly(w: World, w1: World, k: nat) {
    && w.hist.delivered <= w1.hist.delivered
    && (if Answered(News(w, w1), k) then
          && k !in w1.link.waits && w1.hist.answered[k] == w.hist.answered[k] + 1
          && w1.hist.timedOut[k] == w.hist.timedOut[k]
        else
          && w1.hist.answered[k] == w.hist.answered[k]
          && (k in w1.link.waits <==> w1.hist.timedOut[k] == w.hist.timedOut[k]))
  }

  lemma ReadableAnswers(w: World, res: RecvResult, now: int, k: nat)
    requires k in w.link.waits && CloseOnFail(HandleRecv(w, res, now)).link.flag != Closed
    ensures AnsweredExactly(w, CloseOnFail(HandleRecv(w, res, now)), k)
  {
    RecvKeepsWaits(w, res, now, k);
    if w.link.flag == Connected && |w.link.buff| < MAX_RECV_BUFF && res.Chunk? {
      var fs := Split(w.link.buff + res.bytes).frames;
      ChunkRetiresExactly(w, res.bytes, now, k);
      var w0 := World(w.link.(misses := 0), w.hist.(resetAt := now, received := w.hist.received + res.bytes));
      TakeFramesEffect(w0, fs, now);
      PayloadAnswers(fs, k);
    }
  }

  /** What a step delivers, and only that, can answer. */
  lemma StepAnswersExactly(w: World, interval: nat, step: Step, now: int, k: nat)
    requires Balanced(w) && Possible(w.link, step) && k in w.link.waits && !step.Send?
    requires Next(w, interval, step, now).link.flag != Closed
    ensures AnsweredExactly(w, Next(w, interval, step, now), k)
  {
    match step
    case Readable(res) => ReadableAnswers(w, res, now, k);
    case Writable(connects, results) =>
      DrainReports(w.(link := w.link.(writable := false)), results, now);
      DrainKeepsWaits(w.(link := w.link.(writable := false)), results, now, k);
    case Tick(res) =>
      if w.link.flag == Connected {
        TickWait(w, interval, res, now, k);
        TickDeliversNothing(w, interval, res, now);
      }
    case ErrorEvent =>
    case Stop =>
  }

  lemma TickDeliversNothing(w: World, interval: nat, res: SendResult, now: int)
    requires Taken(res) <= HEADER_SIZE
    ensures var w1 := HandleTimeout(w, interval, res, now);
            w1.hist.delivered == w.hist.delivered && w1.hist.answered == w.hist.answered
  {
    HeartbeatKeepsWaits(w.(link := CountMisses(w.link, interval, now)), interval, res, now);
  }

  /** In every run in which the application sends nothing and the link is not closed, a waiting request whose number is
      outstanding once is answered if and only if a message that answers it is delivered before the timer ends the wait.
      It is answered once at most, and not both answered and timed out. */
  lemma {:induction false} RunAnswersExactly(w: World, interval: nat, events: seq<Event>, k: nat)
    requires Tracked(w, k, w.hist.leaked[k]) && IsRun(w, interval, events) && Quiet(events) && k in w.link.waits
    requires Run(w, interval, events).link.flag != Closed
    ensures var w1 := Run(w, interval, events);
            && w.hist.delivered <= w1.hist.delivered
            && (k in w1.link.waits ==>
                  && !Answered(News(w, w1), k)
                  && w1.hist.answered[k] == w.hist.answered[k] && w1.hist.timedOut[k] == w.hist.timedOut[k])
            && (k !in w1.link.waits && w1.hist.timedOut[k] == w.hist.timedOut[k] ==>
                  Answered(News(w, w1), k) && w1.hist.answered[k] == w.hist.answered[k] + 1)
            && (k !in w1.link.waits && w1.hist.timedOut[k] != w.hist.timedOut[k] ==>
                  w1.hist.answered[k] == w.hist.answered[k] && w1.hist.timedOut[k] == w.hist.timedOut[k] + 1)
    decreases |events|
  {
    if events != [] {
      var step, now, lost := events[0].step, events[0].now, w.hist.leaked[k];
      var w1, w2 := Next(w, interval, events[0].step, events[0].now), Run(w, interval, events);
      assert !step.Send? && forall i | 0 <= i < |events[1..]| :: events[1..][i] == events[i + 1];
      TrackedStep(w, interval, step, now, k, lost);
      if w1.link.flag == Closed {
        ClosedAbsorbs(w1, interval, events[1..]);
      }
      StepAnswersExactly(w, interval, step, now, k);
      RunDeliversMore(w1, interval, events[1..]);
      NewsSplits(w.hist.delivered, w1.hist.delivered, w2.hist.delivered);
      AnsweredConcat(News(w, w1), News(w1, w2), k);
      if k in w1.link.waits {
        RunAnswersExactly(w1, interval, events[1..], k);
      } else {
        WaitingCounts(w, k);
        WaitingCounts(w1, k);
        RetiredForGood(w1, interval, events[1..], k, lost);
      }
    }
  }

  lemma WaitingCounts(w: World, k: nat)
    ensures Outstanding(w.link)[k] == Requests(w.link.queue)[k] + (if k in w.link.waits then 1 else 0)
  {
  }

  lemma NewsSplits(a: seq<Frame>, b: seq<Frame>, c: seq<Frame>)
    requires a <= b <= c
    ensures c[|a|..] == b[|a|..] + c[|b|..]
  {
  }

  lemma {:induction false} RunDeliversMore(w: World, interval: nat, events: seq<Event>)
    requires IsRun(w, interval, events)
    ensures w.hist.delivered <= Run(w, interval, events).hist.delivered
    decreases |events|
  {
    if events != [] {
      StepDeliversMore(w, interval, events[0].step, events[0].now);
      RunDeliversMore(Next(w, interval, events[0].step, events[0].now), interval, events[1..]);
    }
  }

  lemma StepDeliversMore(w: World, interval: nat, step: Step, now: int)
    requires Possible(w.link, step)
    ensures w.hist.delivered <= Next(w, interval, step, now).hist.delivered
  {
    match step
    case Send(msg, timeout, res) =>
    case Readable(res) =>
      if w.link.flag == Connected && |w.link.buff| < MAX_RECV_BUFF && res.Chunk? {
        var w0 := World(w.link.(misses := 0), w.hist.(resetAt := now, received := w.hist.received + res.bytes));
        TakeFramesEffect(w0, Split(w.link.buff + res.bytes).frames, now);
      }
    case Writable(connects, results) => DrainReports(w.(link := w.link.(writable := false)), results, now);
    case Tick(res) => TickDeliversNothing(w, interval, res, now);
    case ErrorEvent =>
    case Stop =>
  }
}
