/** One client connection as a state machine: what each entry point of CClientLink does to its fields,
    with the results of recv, send and time chosen by the environment. */
module VmsLink {
  import opened VmsFrames

  const MAX_QUEUE_SIZE: nat := 2000
  const REQ_MASK: nat := 0x7FFF
  const RESP_MASK: nat := 0x8000
  const WORK_INTERVAL: int := 1      // HEARTBEAT_THREAD_WORK_INTERVAL
  const TIMEOUT_TIMES: int := 3      // HEARTBEAT_TIMEOUT_TIMES

  datatype Flag = Idle | Connecting | Connected | ConnTimeout | Closing | Closed

  /** A message with its SENDMSGHEAD. */
  datatype Pending = Pending(msg: Frame, sent: nat, timeout: nat, sendTime: int)

  datatype Link = Link(
    flag: Flag,
    buff: seq<byte>,
    queue: seq<Pending>,
    waits: map<nat, Pending>,
    misses: nat,
    lastRecv: int,
    lastSend: int,
    writable: bool)       // EPOLLOUT is registered

  /** What the outside has seen: bytes from and to the socket, messages taken from the application and
      callbacks made to it. Requests are counted by transaction number. */
  datatype History = History(
    received: seq<byte>,
    delivered: seq<Frame>,
    wire: seq<byte>,
    accepted: seq<byte>,
    requests: multiset<nat>,
    answered: multiset<nat>,
    timedOut: multiset<nat>,
    failed: multiset<nat>,
    leaked: multiset<nat>,
    resetAt: int)         // when the miss counter was last set to zero

  datatype World = World(link: Link, hist: History)

  datatype Code = Ok | Fail | Disconnected | LengthInvalid | QueueFull

  /** send(): bytes taken, or an error that bIsSockOK calls temporary, or any other error. */
  datatype SendResult = Sent(n: nat) | Busy | Broken
  /** recv(): bytes, a temporary error, or end of stream / any other error. */
  datatype RecvResult = Chunk(bytes: seq<byte>) | RecvBusy | RecvBroken

  function Taken(r: SendResult): nat {
    if r.Sent? then r.n else 0
  }

  // ----- requests and responses -----

  /** bWaitRespMsg: a timeout is set and the high bit of the number is clear. */
  predicate Awaits(timeout: nat, tn: nat) {
    timeout != 0 && tn <= REQ_MASK
  }

  predicate IsRequest(p: Pending) {
    Awaits(p.timeout, TransNo(p.msg))
  }

  /** addWaitRespMsg: map.insert keeps the old entry when the number is taken, and the new message is never freed. */
  function AddWait(w: World, p: Pending): World {
    var tn := TransNo(p.msg);
    if tn in w.link.waits then w.(hist := w.hist.(leaked := w.hist.leaked + multiset{tn}))
    else w.(link := w.link.(waits := w.link.waits[tn := p]))
  }

  /** delWaitRespMsg: a response has the high bit set and the number of its request in the others. */
  function DelWait(w: World, tn: nat): World {
    if tn < RESP_MASK || tn - RESP_MASK !in w.link.waits then w
    else World(w.link.(waits := w.link.waits - {tn - RESP_MASK}),
               w.hist.(answered := w.hist.answered + multiset{tn - RESP_MASK}))
  }

  // ----- sending -----

  function AcceptMessage(h: History, msg: Frame, timeout: nat): History {
    h.(accepted := h.accepted + msg,
       requests := h.requests + (if Awaits(timeout, TransNo(msg)) then multiset{TransNo(msg)} else multiset{}))
  }

  /** sendMsg on the right handle with a message that starts with a header. */
  function SendMsg(w: World, msg: Frame, timeout: nat, res: SendResult, now: int): (World, Code)
    requires Taken(res) <= |msg|
  {
    var l, h := w.link, w.hist;
    if l.flag != Connected then (w, Disconnected)
    else if PacketLength(msg) != |msg| then (w, LengthInvalid)
    else if l.queue == [] then
      if res.Broken? then (w.(link := l.(flag := Closing)), Fail)
      else
        var h1 := AcceptMessage(h, msg, timeout).(wire := h.wire + msg[..Taken(res)]);
        if Taken(res) < |msg| then
          (World(l.(queue := [Pending(msg, Taken(res), timeout, 0)], writable := true), h1), Ok)
        else if Awaits(timeout, TransNo(msg)) then (AddWait(World(l, h1), Pending(msg, |msg|, timeout, now)), Ok)
        else (World(l, h1), Ok)
    else if |l.queue| >= MAX_QUEUE_SIZE then (w, QueueFull)
    else (World(l.(queue := l.queue + [Pending(msg, 0, timeout, 0)]), AcceptMessage(h, msg, timeout)), Ok)
  }

  /** The head of the queue after n more of its bytes went out. */
  function SendPart(w: World, n: nat): World
    requires w.link.queue != []
  {
    var l, p := w.link, w.link.queue[0];
    World(l.(queue := [p.(sent := p.sent + n)] + l.queue[1..], writable := true),
          w.hist.(wire := w.hist.wire + Slice(p.msg, p.sent, n)))
  }

  /** The head of the queue went out completely: it leaves the queue and, as a request, waits for its response. */
  function SendRest(w: World, now: int): World
    requires w.link.queue != []
  {
    var l, p := w.link, w.link.queue[0];
    var w1 := World(l.(queue := l.queue[1..]), w.hist.(wire := w.hist.wire + Slice(p.msg, p.sent, |p.msg|)));
    if IsRequest(p) then AddWait(w1, p.(sent := |p.msg|, sendTime := now)) else w1
  }

  /** The loop of handleSend. `results` are the returns of its send calls; a missing one counts as a busy socket. */
  function Drain(w: World, results: seq<SendResult>, now: int): (World, Code)
    decreases |w.link.queue|
  {
    if w.link.queue == [] then (w, Ok)
    else
      var p, res := w.link.queue[0], NextResult(results);
      if res.Broken? then (w, Fail)
      else if p.sent + Taken(res) < |p.msg| then (SendPart(w, Taken(res)), Ok)
      else Drain(SendRest(w, now), if results == [] then [] else results[1..], now)
  }

  function NextResult(results: seq<SendResult>): SendResult {
    if results == [] then Busy else results[0]
  }

  /** At most n bytes of s from i on. */
  function Slice(s: seq<byte>, i: nat, n: nat): seq<byte> {
    if i >= |s| then [] else if i + n <= |s| then s[i..i + n] else s[i..]
  }

  function HandleSend(w: World, connects: bool, results: seq<SendResult>, now: int): (World, Code) {
    var l := w.link;
    if l.flag == Connecting then
      if connects then
        (w.(link := l.(flag := Connected, lastSend := now, lastRecv := now, writable := false)), Ok)
      else (w.(link := l.(flag := Closing)), Fail)
    else if l.flag == ConnTimeout then (w, Fail)
    else if l.flag != Connected then (w, Ok)
    else Drain(w.(link := l.(writable := false)), results, now)
  }

  // ----- receiving -----

  /** One complete frame: heartbeats only move the clock, all others go to the application. */
  function TakeFrame(w: World, f: Frame, now: int): World {
    if MsgType(f) == TYPE_HEARTBEAT then w.(link := w.link.(lastRecv := now))
    else DelWait(w.(hist := w.hist.(delivered := w.hist.delivered + [f])), TransNo(f))
  }

  function TakeFrames(w: World, fs: seq<Frame>, now: int): World
    decreases |fs|
  {
    if fs == [] then w else TakeFrames(TakeFrame(w, fs[0], now), fs[1..], now)
  }

  function HandleRecv(w: World, res: RecvResult, now: int): (World, Code) {
    var l := w.link;
    if l.flag == ConnTimeout then (w, Fail)
    else if l.flag != Connected then (w, Disconnected)
    else
      var w1 := World(l.(misses := 0), w.hist.(resetAt := now));
      if |l.buff| >= MAX_RECV_BUFF then (w1, Ok)
      else match res
        case RecvBusy => (w1, Ok)
        case RecvBroken => (w1, Fail)
        case Chunk(c) =>
          Receive(w1, c, now)
  }

  /** The bytes c behind those in the buffer: parseData, then the rest moves to the front. */
  function Receive(w: World, c: seq<byte>, now: int): (World, Code) {
    var f := Split(w.link.buff + c);
    var w1 := TakeFrames(w.(hist := w.hist.(received := w.hist.received + c)), f.frames, now);
    match f.tail
    case Rest(rest) => (w1.(link := w1.link.(buff := rest)), Ok)
    case _ => (w1.(link := w1.link.(buff := [])), Fail)
  }

  // ----- closing -----

  function Requests(queue: seq<Pending>): multiset<nat> {
    if queue == [] then multiset{}
    else (if IsRequest(queue[0]) then multiset{TransNo(queue[0].msg)} else multiset{}) + Requests(queue[1..])
  }

  /** notifyLeftMessage and notifyTimeoutMessage. */
  function NotifyAll(w: World): World {
    World(w.link.(queue := [], waits := map[]),
          w.hist.(failed := w.hist.failed + Requests(w.link.queue),
                  timedOut := w.hist.timedOut + multiset(w.link.waits.Keys)))
  }

  function Shutdown(l: Link): Link {
    if l.flag == Closed then l else l.(flag := Closed, writable := false)
  }

  function HandleClose(w: World): World {
    if w.link.flag == Closed then w else NotifyAll(w.(link := Shutdown(w.link)))
  }

  function StopConn(w: World): World {
    NotifyAll(w.(link := Shutdown(w.link)))
  }

  // ----- the timer -----

  function Abs(x: int): nat {
    if x < 0 then -x else x
  }

  /** The cast of an unsigned 32-bit value to int32_t. */
  function Int32(x: int): int {
    var u := x % 0x1_0000_0000;
    if u < 0x8000_0000 then u else u - 0x1_0000_0000
  }

  /** checkHearbeatMsg up to the decision whether the peer is gone. */
  function CountMisses(l: Link, interval: nat, now: int): Link {
    var quiet := Abs(now - l.lastRecv);
    if quiet > Int32((interval - WORK_INTERVAL) * TIMEOUT_TIMES) then l.(lastRecv := now)
    else if quiet > Int32(interval - WORK_INTERVAL) then l.(misses := l.misses + 1, lastRecv := now)
    else l
  }

  function Heartbeat(): Frame {
    [0x00, 0x01, 0x02, 0x00, 0x00, 0x00, 0x00, 0x00, 0x0C, 0x00, 0x00, 0x00]
  }

  /** checkRespMsg's three outcomes for one waiting message. A difference above three intervals is taken
      for a clock change. */
  predicate ClockJumped(p: Pending, interval: nat, now: int) {
    Abs(p.sendTime - now) > interval * TIMEOUT_TIMES
  }

  predicate Expired(p: Pending, interval: nat, now: int) {
    !ClockJumped(p, interval, now) && Abs(p.sendTime - now) > p.timeout - WORK_INTERVAL
  }

  function ExpiredOf(waits: map<nat, Pending>, interval: nat, now: int): set<nat> {
    set k | k in waits && Expired(waits[k], interval, now)
  }

  function Refreshed(p: Pending, interval: nat, now: int): Pending {
    if ClockJumped(p, interval, now) then p.(sendTime := now) else p
  }

  function CheckResp(w: World, interval: nat, now: int): World {
    var waits := w.link.waits;
    var expired := ExpiredOf(waits, interval, now);
    World(w.link.(waits := map k | k in waits && k !in expired :: Refreshed(waits[k], interval, now)),
          w.hist.(timedOut := w.hist.timedOut + multiset(expired)))
  }

  /** A heartbeat when the last one is an interval old, or when the clock was set back. */
  function SendHeartbeat(w: World, interval: nat, res: SendResult, now: int): World
    requires Taken(res) <= HEADER_SIZE
  {
    var since := now - w.link.lastSend;
    if since > Int32(interval - WORK_INTERVAL) || since <= 0 then
      SendMsg(w.(link := w.link.(lastSend := now)), Heartbeat(), 0, res, now).0
    else w
  }

  function HandleTimeout(w: World, interval: nat, res: SendResult, now: int): World
    requires Taken(res) <= HEADER_SIZE
  {
    if w.link.flag != Connected then w
    else
      var l := CountMisses(w.link, interval, now);
      if l.misses > TIMEOUT_TIMES then w.(link := l.(flag := ConnTimeout))
      else CheckResp(SendHeartbeat(w.(link := l), interval, res, now), interval, now)
  }

  // ----- steps -----

  /** The environment's moves: application calls, epoll events (after which a failing handler is followed by
      handleClose in the event thread) and timer ticks. */
  datatype Step =
    | Send(msg: Frame, timeout: nat, sres: SendResult)
    | Readable(rres: RecvResult)
    | Writable(connects: bool, results: seq<SendResult>)
    | Tick(tres: SendResult)
    | ErrorEvent
    | Stop

  /** What the system calls guarantee: send takes no more than offered, recv fills no more than the room given. */
  predicate Possible(l: Link, step: Step) {
    match step
    case Send(msg, _, res) => Taken(res) <= |msg|
    case Readable(res) => res.Chunk? ==> 0 < |res.bytes| && |l.buff| + |res.bytes| <= MAX_RECV_BUFF
    case Writable(_, _) => true
    case Tick(res) => Taken(res) <= HEADER_SIZE
    case _ => true
  }

  function CloseOnFail(r: (World, Code)): World {
    if r.1 == Fail then HandleClose(r.0) else r.0
  }

  function Next(w: World, interval: nat, step: Step, now: int): World
    requires Possible(w.link, step)
  {
    match step
    case Send(msg, timeout, res) => SendMsg(w, msg, timeout, res, now).0
    case Readable(res) => CloseOnFail(HandleRecv(w, res, now))
    case Writable(connects, results) => CloseOnFail(HandleSend(w, connects, results, now))
    case Tick(res) => HandleTimeout(w, interval, res, now)
    case ErrorEvent => HandleClose(w)
    case Stop => StopConn(w)
  }
}
