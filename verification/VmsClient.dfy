/** CClientLink as the object it is: fields updated in place by its methods, each proved to take exactly the step
    the state machine of VmsLink prescribes. */
module VmsClient {
  import opened VmsFrames
  import opened VmsLink

  /** connect() on a socket that does not block. */
  datatype ConnectResult = AtOnce | InProgress | Refused

  class ClientLink {
    const linkId: nat
    var connFlag: Flag
    var recvBuff: array<byte>
    var used: nat
    var msgQueue: seq<Pending>
    var waitMap: map<nat, Pending>
    var heartbeatTimes: nat
    var lastRecv: int
    var lastSend: int
    var epollOut: bool
    ghost var hist: History

    ghost predicate Valid()
      reads this, recvBuff
    {
      && recvBuff.Length == MAX_RECV_BUFF && used <= MAX_RECV_BUFF
      && (forall p | p in msgQueue :: p.sent < |p.msg| == PacketLength(p.msg))
      && (forall k | k in waitMap :: TransNo(waitMap[k].msg) == k)
    }

    /** The state of the machine this object is in. */
    ghost function Now(): World
      reads this, recvBuff
      requires Valid()
    {
      World(Link(connFlag, recvBuff[..used], msgQueue, waitMap, heartbeatTimes, lastRecv, lastSend, epollOut), hist)
    }

    constructor (id: nat)
      ensures Valid() && fresh(recvBuff) && linkId == id
      ensures connFlag == Idle && used == 0 && msgQueue == [] && waitMap == map[] && heartbeatTimes == 0
    {
      linkId, connFlag, used, msgQueue, waitMap := id, Idle, 0, [], map[];
      heartbeatTimes, lastRecv, lastSend, epollOut := 0, 0, 0, false;
      recvBuff := new byte[MAX_RECV_BUFF](_ => 0);
      hist := History([], [], [], [], multiset{}, multiset{}, multiset{}, multiset{}, multiset{}, 0);
    }

    // ----- sending -----

    /** sendMsgToPeer: the socket takes some bytes of msg from `from` on. */
    method SendMsgToPeer(msg: Frame, from: nat, res: SendResult) returns (ok: bool, taken: nat)
      requires Valid() && from <= |msg|
      modifies this`hist
      ensures ok == !res.Broken? && taken == (if Taken(res) <= |msg| - from then Taken(res) else |msg| - from)
      ensures hist == if ok then old(hist).(wire := old(hist).wire + msg[from..from + taken]) else old(hist)
    {
      ok, taken := !res.Broken?, 0;
      if res.Sent? {
        taken := if res.n <= |msg| - from then res.n else |msg| - from;
      }
      if ok {
        hist := hist.(wire := hist.wire + msg[from..from + taken]);
      }
    }

    method AddWaitRespMsg(p: Pending)
      requires Valid()
      modifies this`waitMap, this`hist
      ensures Valid() && Now() == AddWait(old(Now()), p)
    {
      if TransNo(p.msg) in waitMap {
        hist := hist.(leaked := hist.leaked + multiset{TransNo(p.msg)});
      } else {
        waitMap := waitMap[TransNo(p.msg) := p];
      }
    }

    method SendMsg(handle: nat, msg: Frame, timeout: nat, res: SendResult, now: int) returns (code: Code)
      requires Valid() && Taken(res) <= |msg|
      modifies this
      ensures Valid() && recvBuff == old(recvBuff) && used == old(used)
      ensures handle != linkId ==> code == Fail && Now() == old(Now())
      ensures handle == linkId ==> (Now(), code) == VmsLink.SendMsg(old(Now()), msg, timeout, res, now)
    {
      if handle != linkId {
        return Fail;
      }
      if connFlag != Connected {
        return Disconnected;
      }
      if PacketLength(msg) != |msg| {
        return LengthInvalid;
      }
      if msgQueue == [] {
        code := SendNow(msg, timeout, res, now);
        return;
      }
      if |msgQueue| >= MAX_QUEUE_SIZE {
        return QueueFull;
      }
      msgQueue := msgQueue + [Pending(msg, 0, timeout, 0)];
      hist := AcceptMessage(hist, msg, timeout);
      code := Ok;
    }

    /** sendMsg with an empty queue. */
    method SendNow(msg: Frame, timeout: nat, res: SendResult, now: int) returns (code: Code)
      requires Valid() && Taken(res) <= |msg| == PacketLength(msg) && connFlag == Connected && msgQueue == []
      modifies this
      ensures Valid() && recvBuff == old(recvBuff) && used == old(used)
      ensures (Now(), code) == VmsLink.SendMsg(old(Now()), msg, timeout, res, now)
    {
      ghost var h := hist;
      var ok, taken := SendMsgToPeer(msg, 0, res);
      if !ok {
        SetConnFlag(Closing);
        return Fail;
      }
      assert msg[0..taken] == msg[..taken];
      hist := AcceptMessage(hist, msg, timeout);
      assert hist == AcceptMessage(h, msg, timeout).(wire := h.wire + msg[..taken]);
      code := Ok;
      if taken < |msg| {
        msgQueue := [Pending(msg, taken, timeout, 0)] + msgQueue;
        assert msgQueue == [Pending(msg, taken, timeout, 0)];
        epollOut := true;
      } else if Awaits(timeout, TransNo(msg)) {
        AddWaitRespMsg(Pending(msg, taken, timeout, now));
      }
    }

    method SetConnFlag(f: Flag)
      modifies this`connFlag
      ensures connFlag == if old(connFlag) == Closed then Closed else f
    {
      if connFlag != Closed {
        connFlag := f;
      }
    }

    method HandleSend(connects: bool, results: seq<SendResult>, now: int) returns (code: Code)
      requires Valid()
      modifies this
      ensures Valid() && recvBuff == old(recvBuff) && used == old(used)
      ensures (Now(), code) == VmsLink.HandleSend(old(Now()), connects, results, now)
    {
      if connFlag == Connecting {
        if !connects {
          SetConnFlag(Closing);
          return Fail;
        }
        SetConnFlag(Connected);
        lastSend, lastRecv, epollOut := now, now, false;
        return Ok;
      }
      if connFlag != Connected {
        return if connFlag == ConnTimeout then Fail else Ok;
      }
      epollOut := false;
      var i := 0;
      ghost var w0 := Now();
      assert results[0..] == results;
      while msgQueue != []
        invariant Valid() && recvBuff == old(recvBuff) && used == old(used)
        invariant 0 <= i <= |results|
        invariant Drain(Now(), results[i..], now) == Drain(w0, results, now)
        decreases |msgQueue|
      {
        var done;
        done, code, i := SendFront(results, i, now);
        if done {
          return;
        }
      }
      code := Ok;
    }

    /** One turn of its loop; done when the socket took less than everything. */
    method SendFront(results: seq<SendResult>, i0: nat, now: int) returns (done: bool, code: Code, i: nat)
      requires Valid() && msgQueue != [] && i0 <= |results|
      modifies this
      ensures Valid() && recvBuff == old(recvBuff) && used == old(used) && i <= |results|
      ensures done ==> (Now(), code) == Drain(old(Now()), results[i0..], now)
      ensures !done ==> Drain(Now(), results[i..], now) == Drain(old(Now()), results[i0..], now)
      ensures !done ==> |msgQueue| < |old(msgQueue)|
    {
      var res := Busy;
      i := i0;
      if i < |results| {
        res, i := results[i], i + 1;
        assert results[i0..][1..] == results[i..];
      }
      assert res == NextResult(results[i0..]);
      assert results[i..] == if results[i0..] == [] then [] else results[i0..][1..];
      done, code := SendHead(res, now);
    }

    /** One send call for the front message. */
    method SendHead(res: SendResult, now: int) returns (done: bool, code: Code)
      requires Valid() && msgQueue != []
      modifies this
      ensures Valid() && recvBuff == old(recvBuff) && used == old(used)
      ensures done == (res.Broken? || old(msgQueue)[0].sent + Taken(res) < |old(msgQueue)[0].msg|)
      ensures res.Broken? ==> code == Fail && Now() == old(Now())
      ensures done && !res.Broken? ==> code == Ok && Now() == SendPart(old(Now()), Taken(res))
      ensures !done ==> Now() == SendRest(old(Now()), now)
    {
      var p := msgQueue[0];
      assert p in msgQueue;
      done, code := true, Ok;
      var ok, taken := SendMsgToPeer(p.msg, p.sent, res);
      if !ok {
        code := Fail;
        return;
      }
      if p.sent + taken < PacketLength(p.msg) {
        assert p.msg[p.sent..p.sent + taken] == Slice(p.msg, p.sent, taken);
        PushFront(p.(sent := p.sent + taken));
      } else {
        done := false;
        assert p.msg[p.sent..p.sent + taken] == Slice(p.msg, p.sent, |p.msg|);
        PopFront(p, now);
      }
    }

    /** The front message is not out yet: write interest is registered again. */
    method PushFront(p: Pending)
      requires Valid() && msgQueue != [] && p.sent < |p.msg| == PacketLength(p.msg)
      modifies this`msgQueue, this`epollOut
      ensures Valid() && msgQueue == [p] + old(msgQueue)[1..] && epollOut
    {
      msgQueue := [p] + msgQueue[1..];
      epollOut := true;
    }

    /** The front message is out: it leaves the queue and may start to wait for its response. */
    method PopFront(p: Pending, now: int)
      requires Valid() && msgQueue != [] && p == msgQueue[0]
      modifies this`msgQueue, this`waitMap, this`hist
      ensures Valid() && msgQueue == old(msgQueue)[1..]
      ensures Now() == Popped(old(Now()), now)
    {
      msgQueue := msgQueue[1..];
      if IsRequest(p) {
        AddWaitRespMsg(p.(sent := |p.msg|, sendTime := now));
      }
    }

    // ----- receiving -----

    /** handleRecv: recv puts a chunk behind what the buffer holds, complete frames are taken out, the rest moves
        to the front. */
    method HandleRecv(res: RecvResult, now: int) returns (code: Code)
      requires Valid() && Possible(Now().link, Readable(res))
      modifies this, recvBuff
      ensures Valid() && recvBuff == old(recvBuff)
      ensures (Now(), code) == VmsLink.HandleRecv(old(Now()), res, now)
    {
      if connFlag != Connected {
        return if connFlag == ConnTimeout then Fail else Disconnected;
      }
      heartbeatTimes := 0;
      hist := hist.(resetAt := now);
      if used == MAX_RECV_BUFF {
        return Ok;
      }
      if !res.Chunk? {
        return if res.RecvBusy? then Ok else Fail;
      }
      code := ReceiveChunk(res.bytes, now);
    }

    method ReceiveChunk(bytes: seq<byte>, now: int) returns (code: Code)
      requires Valid() && used + |bytes| <= MAX_RECV_BUFF
      modifies this, recvBuff
      ensures Valid() && recvBuff == old(recvBuff)
      ensures (Now(), code) == Receive(old(Now()), bytes, now)
    {
      Fill(bytes);
      hist := hist.(received := hist.received + bytes);
      ghost var w := Now();
      code := ParseAndKeep(now);
      BufferUnread(w, old(Now()).link.buff, Split(w.link.buff).frames, now);
      assert w == old(Now()).(link := old(Now()).link.(buff := w.link.buff), hist := w.hist);
    }

    /** recv. */
    method Fill(bytes: seq<byte>)
      requires Valid() && used + |bytes| <= MAX_RECV_BUFF
      modifies this`used, recvBuff
      ensures Valid() && used == old(used) + |bytes|
      ensures recvBuff[..used] == old(recvBuff[..used]) + bytes
    {
      var i := 0;
      while i < |bytes|
        invariant 0 <= i <= |bytes| && used == old(used)
        invariant recvBuff[..used] == old(recvBuff[..used])
        invariant recvBuff[used..used + i] == bytes[..i]
      {
        recvBuff[used + i] := bytes[i];
        i := i + 1;
      }
      assert recvBuff[..used + |bytes|] == recvBuff[..used] + recvBuff[used..used + |bytes|];
      used := used + |bytes|;
    }

    method ParseAndKeep(now: int) returns (code: Code)
      requires Valid()
      modifies this, recvBuff
      ensures Valid() && recvBuff == old(recvBuff)
      ensures var f := Split(old(recvBuff[..used]));
              var w1 := TakeFrames(old(Now()), f.frames, now);
              match f.tail {
                case Rest(rest) => code == Ok && Now() == w1.(link := w1.link.(buff := rest))
                case _ => code == Fail && Now() == w1.(link := w1.link.(buff := []))
              }
    {
      ghost var b := recvBuff[..used];
      var ok, unproc := ParseData(now);
      if !ok {
        used := 0;
        return Fail;
      }
      KeepRest(used - unproc, unproc);
      code := Ok;
    }

    /** memmove of the unparsed bytes to the front. */
    method KeepRest(from: nat, n: nat)
      requires Valid() && from + n == used
      modifies this`used, recvBuff
      ensures Valid() && used == n && recvBuff[..n] == old(recvBuff[from..from + n])
    {
      var i := 0;
      while i < n
        invariant 0 <= i <= n
        invariant forall k | 0 <= k < i :: recvBuff[k] == old(recvBuff[from + k])
        invariant forall k | i <= k < recvBuff.Length :: recvBuff[k] == old(recvBuff[k])
      {
        recvBuff[i] := recvBuff[from + i];
        i := i + 1;
      }
      used := n;
    }

    /** parseData: its loop over the frames in the buffer. */
    method ParseData(now: int) returns (ok: bool, unproc: nat)
      requires Valid()
      modifies this`lastRecv, this`waitMap, this`hist
      ensures Valid()
      ensures var f := Split(recvBuff[..used]);
              && Now() == TakeFrames(old(Now()), f.frames, now)
              && (ok <==> f.tail.Rest?)
              && (ok ==> unproc <= used && f.tail.rest == recvBuff[used - unproc..used])
    {
      ghost var b, w0 := recvBuff[..used], Now();
      ok, unproc := true, used;
      var pos: nat, more := 0, unproc >= HEADER_SIZE;
      assert b[0..] == b;
      while more
        invariant Valid() && pos + unproc == used == |b| && recvBuff[..used] == b
        invariant more ==> unproc >= HEADER_SIZE
        invariant Ahead(Now(), b, pos, now) == Ahead(w0, b, 0, now)
        invariant !more ==> NothingAt(b, pos, ok)
        decreases more, unproc
      {
        var n;
        ok, n := ParseFrame(pos, b, now);
        pos, unproc := pos + n, unproc - n;
        more := n > 0 && unproc >= HEADER_SIZE;
      }
      assert recvBuff[pos..used] == b[pos..];
    }

    /** One turn: the frame at pos is bad, incomplete (n == 0), or taken (n bytes). */
    method ParseFrame(pos: nat, ghost b: seq<byte>, now: int) returns (ok: bool, n: nat)
      requires Valid() && |b| == used && recvBuff[..used] == b && pos + HEADER_SIZE <= used
      modifies this`lastRecv, this`waitMap, this`hist
      ensures Valid() && pos + n <= used && (!ok ==> n == 0)
      ensures n == 0 ==> NothingAt(b, pos, ok) && Now() == old(Now())
      ensures n > 0 ==> Ahead(Now(), b, pos + n, now) == Ahead(old(Now()), b, pos, now)
    {
      ok, n := true, 0;
      var head := Peek(pos, HEADER_SIZE);
      HeaderAt(b, pos, head);
      var length := PacketLength(head);
      if length < HEADER_SIZE {
        ok := false;
        return;
      }
      if used - pos < length {
        return;
      }
      if Version(head) != PROTOCOL_VERSION {
        ok := false;
        return;
      }
      FirstFrame(b, pos, length, Now(), now);
      var f := Peek(pos, length);
      HandleFrame(f, now);
      n := length;
    }

    method Peek(pos: nat, n: nat) returns (s: seq<byte>)
      requires Valid() && pos + n <= used
      ensures s == recvBuff[..used][pos..pos + n]
    {
      s := recvBuff[pos..pos + n];
    }

    /** One complete frame. */
    method HandleFrame(f: Frame, now: int)
      requires Valid()
      modifies this`lastRecv, this`waitMap, this`hist
      ensures Valid() && Now() == TakeFrame(old(Now()), f, now)
    {
      if MsgType(f) == TYPE_HEARTBEAT {
        lastRecv := now;
      } else {
        hist := hist.(delivered := hist.delivered + [f]);
        DelWaitRespMsg(TransNo(f));
      }
    }

    method DelWaitRespMsg(tn: nat)
      requires Valid()
      modifies this`waitMap, this`hist
      ensures Valid() && Now() == DelWait(old(Now()), tn)
    {
      if tn >= RESP_MASK {
        var request := tn - RESP_MASK;
        if request in waitMap {
          waitMap := waitMap - {request};
          hist := hist.(answered := hist.answered + multiset{request});
        }
      }
    }

    // ----- opening and closing -----

    /** startConn once the socket exists and is bound. */
    method StartConn(connect: ConnectResult, now: int) returns (code: Code)
      requires Valid()
      modifies this`connFlag, this`lastSend, this`lastRecv, this`epollOut
      ensures Valid()
      ensures connect == Refused ==> code == Fail && Now() == old(Now())
      ensures connect != Refused ==>
                code == Ok && connFlag == if old(connFlag) == Closed then Closed
                                          else if connect == InProgress then Connecting else Connected
      ensures connect == InProgress ==> epollOut && lastSend == old(lastSend) && lastRecv == old(lastRecv)
      ensures connect == AtOnce ==> !epollOut && lastSend == lastRecv == now
    {
      match connect
      case Refused =>
        code := Fail;
      case InProgress =>
        SetConnFlag(Connecting);
        epollOut := true;
        code := Ok;
      case AtOnce =>
        SetConnFlag(Connected);
        lastSend, lastRecv, epollOut := now, now, false;
        code := Ok;
    }

    method ShutdownSock()
      requires Valid()
      modifies this`connFlag, this`epollOut
      ensures Valid() && Now() == old(Now()).(link := Shutdown(old(Now()).link))
    {
      if connFlag == Closed {
        return;
      }
      SetConnFlag(Closed);
      epollOut := false;
    }

    /** Hands every queued message back to the application as a failed send. */
    method NotifyLeftMessage()
      requires Valid()
      modifies this`msgQueue, this`hist
      ensures Valid() && msgQueue == []
      ensures hist == old(hist).(failed := old(hist).failed + Requests(old(msgQueue)))
    {
      while msgQueue != []
        invariant Valid()
        invariant hist.(failed := hist.failed + Requests(msgQueue))
               == old(hist).(failed := old(hist).failed + Requests(old(msgQueue)))
        decreases |msgQueue|
      {
        var p := msgQueue[0];
        msgQueue := msgQueue[1..];
        if IsRequest(p) {
          hist := hist.(failed := hist.failed + multiset{TransNo(p.msg)});
        }
      }
      assert hist.failed + multiset{} == hist.failed;
    }

    /** Hands every message that waits for its response back to the application as timed out. */
    method NotifyTimeoutMessage()
      requires Valid()
      modifies this`waitMap, this`hist
      ensures Valid() && waitMap == map[]
      ensures hist == old(hist).(timedOut := old(hist).timedOut + multiset(old(waitMap.Keys)))
    {
      while waitMap.Keys != {}
        invariant Valid()
        invariant hist.(timedOut := hist.timedOut + multiset(waitMap.Keys))
               == old(hist).(timedOut := old(hist).timedOut + multiset(old(waitMap.Keys)))
        decreases |waitMap|
      {
        var k :| k in waitMap.Keys;
        ghost var before := waitMap;
        Without(waitMap, k);
        waitMap := waitMap - {k};
        hist := hist.(timedOut := hist.timedOut + multiset{TransNo(before[k].msg)});
      }
      assert hist.timedOut + multiset{} == hist.timedOut;
    }

    method NotifyBoth()
      requires Valid()
      modifies this`msgQueue, this`waitMap, this`hist
      ensures Valid() && Now() == NotifyAll(old(Now()))
    {
      NotifyLeftMessage();
      NotifyTimeoutMessage();
    }

    method HandleClose()
      requires Valid()
      modifies this
      ensures Valid() && recvBuff == old(recvBuff) && used == old(used)
      ensures Now() == VmsLink.HandleClose(old(Now()))
    {
      if connFlag == Closed {
        return;
      }
      ShutdownSock();
      NotifyBoth();
    }

    method StopConn(handle: nat) returns (code: Code)
      requires Valid()
      modifies this
      ensures Valid() && recvBuff == old(recvBuff) && used == old(used)
      ensures handle != linkId ==> code == Fail && Now() == old(Now())
      ensures handle == linkId ==> code == Ok && Now() == VmsLink.StopConn(old(Now()))
    {
      if handle != linkId {
        return Fail;
      }
      ShutdownSock();
      NotifyBoth();
      code := Ok;
    }

    // ----- the timer -----

    method HandleTimeout(interval: nat, res: SendResult, now: int)
      requires Valid() && Taken(res) <= HEADER_SIZE
      modifies this
      ensures Valid() && recvBuff == old(recvBuff) && used == old(used)
      ensures Now() == VmsLink.HandleTimeout(old(Now()), interval, res, now)
    {
      if connFlag != Connected {
        return;
      }
      var alive := CheckHearbeatMsg(interval, res, now);
      if alive {
        CheckRespMsg(interval, now);
      }
    }

    method CheckHearbeatMsg(interval: nat, res: SendResult, now: int) returns (alive: bool)
      requires Valid() && Taken(res) <= HEADER_SIZE && connFlag == Connected
      modifies this
      ensures Valid() && recvBuff == old(recvBuff) && used == old(used)
      ensures var l := CountMisses(old(Now()).link, interval, now);
              if l.misses > TIMEOUT_TIMES then !alive && Now() == old(Now()).(link := l.(flag := ConnTimeout))
              else alive && Now() == SendHeartbeat(old(Now()).(link := l), interval, res, now)
    {
      var quiet := Abs(now - lastRecv);
      if quiet > Int32((interval - WORK_INTERVAL) * TIMEOUT_TIMES) {
        lastRecv := now;
      } else if quiet > Int32(interval - WORK_INTERVAL) {
        heartbeatTimes, lastRecv := heartbeatTimes + 1, now;
      }
      assert Now() == old(Now()).(link := CountMisses(old(Now()).link, interval, now));
      if heartbeatTimes > TIMEOUT_TIMES {
        SetConnFlag(ConnTimeout);
        return false;
      }
      var since := now - lastSend;
      if since > Int32(interval - WORK_INTERVAL) || since <= 0 {
        lastSend := now;
        var _ := SendMsg(linkId, Heartbeat(), 0, res, now);
      }
      alive := true;
    }

    /** Two passes: the first calls back for every expired message and lists it, the second takes the listed ones
        out of the map. */
    method CheckRespMsg(interval: nat, now: int)
      requires Valid()
      modifies this`waitMap, this`hist
      ensures Valid() && Now() == CheckResp(old(Now()), interval, now)
    {
      ghost var was := waitMap;
      var timeoutList := FindExpired(interval, now);
      EraseListed(timeoutList);
      ghost var expired := ExpiredOf(was, interval, now);
      ListedIs(timeoutList, expired);
      assert waitMap == CheckResp(old(Now()), interval, now).link.waits;
    }

    method EraseListed(timeoutList: seq<nat>)
      requires Valid()
      modifies this`waitMap
      ensures Valid() && waitMap == old(waitMap) - set j | 0 <= j < |timeoutList| :: timeoutList[j]
    {
      ghost var marked := waitMap;
      var i := 0;
      while i < |timeoutList|
        invariant 0 <= i <= |timeoutList| && Valid()
        invariant waitMap == marked - set j | 0 <= j < i :: timeoutList[j]
      {
        assert waitMap - {timeoutList[i]} == marked - set j | 0 <= j < i + 1 :: timeoutList[j];
        waitMap := waitMap - {timeoutList[i]};
        i := i + 1;
      }
    }

    method FindExpired(interval: nat, now: int) returns (timeoutList: seq<nat>)
      requires Valid()
      modifies this`waitMap, this`hist
      ensures Valid() && multiset(timeoutList) == multiset(ExpiredOf(old(waitMap), interval, now))
      ensures waitMap == map k | k in old(waitMap) :: Refreshed(old(waitMap)[k], interval, now)
      ensures hist == old(hist).(timedOut := old(hist).timedOut + multiset(ExpiredOf(old(waitMap), interval, now)))
    {
      ghost var was := waitMap;
      var todo := waitMap.Keys;
      timeoutList := [];
      while todo != {}
        invariant Valid() && todo <= was.Keys
        invariant waitMap == Sweeping(was, todo, interval, now)
        invariant multiset(timeoutList) == multiset(Found(was, todo, interval, now))
        invariant hist == old(hist).(timedOut := old(hist).timedOut + multiset(Found(was, todo, interval, now)))
        decreases todo
      {
        var k :| k in todo;
        MarkOneStep(was, todo, k, interval, now);
        var late := MarkOne(k, interval, now);
        if late {
          SnocCounts(timeoutList, k);
          timeoutList := timeoutList + [k];
        }
        todo := todo - {k};
      }
      SweepDone(was, interval, now);
    }

    method MarkOne(k: nat, interval: nat, now: int) returns (late: bool)
      requires Valid() && k in waitMap
      modifies this`waitMap, this`hist
      ensures Valid() && late == Expired(old(waitMap)[k], interval, now)
      ensures waitMap == old(waitMap)[k := Refreshed(old(waitMap)[k], interval, now)]
      ensures hist == if late then old(hist).(timedOut := old(hist).timedOut + multiset{k}) else old(hist)
    {
      var p := waitMap[k];
      late := false;
      if ClockJumped(p, interval, now) {
        waitMap := waitMap[k := p.(sendTime := now)];
      } else if Expired(p, interval, now) {
        hist := hist.(timedOut := hist.timedOut + multiset{TransNo(p.msg)});
        late := true;
      }
    }

    // ----- one step -----

    /** What the application, the event thread and the timer thread do with this object: a handler that fails is
        followed by handleClose. So everything proved about Next and its runs holds of this object. */
    method Dispatch(step: Step, interval: nat, now: int)
      requires Valid() && Possible(Now().link, step)
      modifies this, recvBuff
      ensures Valid() && recvBuff == old(recvBuff)
      ensures Now() == Next(old(Now()), interval, step, now)
    {
      var code := Ok;
      match step {
        case Send(msg, timeout, res) =>
          var _ := SendMsg(linkId, msg, timeout, res, now);
        case Readable(res) => code := HandleRecv(res, now);
        case Writable(connects, results) => code := HandleSend(connects, results, now);
        case Tick(res) => HandleTimeout(interval, res, now);
        case ErrorEvent => HandleClose();
        case Stop =>
          var _ := StopConn(linkId);
      }
      if code == Fail {
        HandleClose();
      }
    }
  }

  /** The map while only the entries outside `todo` have been looked at. */
  ghost function Sweeping(was: map<nat, Pending>, todo: set<nat>, interval: nat, now: int): map<nat, Pending> {
    map k | k in was :: if k in todo then was[k] else Refreshed(was[k], interval, now)
  }

  ghost function Found(was: map<nat, Pending>, todo: set<nat>, interval: nat, now: int): set<nat> {
    set k | k in was && k !in todo && Expired(was[k], interval, now)
  }

  lemma MarkOneStep(was: map<nat, Pending>, todo: set<nat>, k: nat, interval: nat, now: int)
    requires k in todo && k in was
    ensures Sweeping(was, todo, interval, now)[k := Refreshed(was[k], interval, now)]
            == Sweeping(was, todo - {k}, interval, now)
    ensures multiset(Found(was, todo - {k}, interval, now))
         == multiset(Found(was, todo, interval, now))
           + (if Expired(was[k], interval, now) then multiset{k} else multiset{})
    ensures Sweeping(was, todo, interval, now)[k] == was[k]
  {
    var before, after := Found(was, todo, interval, now), Found(was, todo - {k}, interval, now);
    assert k !in before && after == before + (if Expired(was[k], interval, now) then {k} else {});
  }

  lemma SnocCounts(list: seq<nat>, k: nat)
    ensures multiset(list + [k]) == multiset(list) + multiset{k}
  {
  }

  lemma SweepDone(was: map<nat, Pending>, interval: nat, now: int)
    ensures Sweeping(was, {}, interval, now) == map k | k in was :: Refreshed(was[k], interval, now)
    ensures Found(was, {}, interval, now) == ExpiredOf(was, interval, now)
  {
  }

  lemma Without(m: map<nat, Pending>, k: nat)
    requires k in m
    ensures multiset(m.Keys) == multiset((m - {k}).Keys) + multiset{k}
    ensures |m - {k}| < |m|
  {
    assert (m - {k}).Keys + {k} == m.Keys;
    assert |(m - {k}).Keys| + 1 == |m.Keys|;
  }

  lemma ListedIs(list: seq<nat>, s: set<nat>)
    requires multiset(list) == multiset(s)
    ensures (set j | 0 <= j < |list| :: list[j]) == s
  {
    forall k ensures k in s <==> k in list {
      assert k in multiset(list) <==> k in multiset(s);
    }
  }

  /** SendRest without the bytes. */
  ghost function Popped(w: World, now: int): World
    requires w.link.queue != []
  {
    var l, p := w.link, w.link.queue[0];
    var w1 := World(l.(queue := l.queue[1..]), w.hist);
    if IsRequest(p) then AddWait(w1, p.(sent := |p.msg|, sendTime := now)) else w1
  }

  lemma HeaderAt(b: seq<byte>, pos: nat, head: seq<byte>)
    requires pos + HEADER_SIZE <= |b| && head == b[pos..pos + HEADER_SIZE]
    ensures PacketLength(b[pos..]) == PacketLength(head) && Version(b[pos..]) == Version(head)
  {
    SameHeader(head, b[pos + HEADER_SIZE..]);
    assert b[pos..] == head + b[pos + HEADER_SIZE..];
  }

  /** Taking frames does not look at the buffer. */
  lemma {:induction false} BufferUnread(w: World, buff: seq<byte>, fs: seq<Frame>, now: int)
    ensures TakeFrames(w.(link := w.link.(buff := buff)), fs, now)
         == TakeFrames(w, fs, now).(link := TakeFrames(w, fs, now).link.(buff := buff))
    decreases |fs|
  {
    if fs != [] {
      BufferUnread(TakeFrame(w, fs[0], now), buff, fs[1..], now);
    }
  }

  /** The world once the frames of b[pos..] are taken, and how they end. */
  ghost function Ahead(w: World, b: seq<byte>, pos: nat, now: int): (World, Tail)
    requires pos <= |b|
  {
    (TakeFrames(w, Split(b[pos..]).frames, now), Split(b[pos..]).tail)
  }

  /** There is no frame to take at pos: it is incomplete if ok, and otherwise bad. */
  ghost predicate NothingAt(b: seq<byte>, pos: nat, ok: bool)
    requires pos <= |b|
  {
    Split(b[pos..]).frames == [] && (if ok then Split(b[pos..]).tail == Rest(b[pos..]) else !Split(b[pos..]).tail.Rest?)
  }

  lemma FirstFrame(b: seq<byte>, pos: nat, n: nat, w: World, now: int)
    requires pos + n <= |b| && n >= HEADER_SIZE && PacketLength(b[pos..]) == n && Version(b[pos..]) == PROTOCOL_VERSION
    ensures Ahead(w, b, pos, now) == Ahead(TakeFrame(w, b[pos..pos + n], now), b, pos + n, now)
  {
    var s := b[pos..];
    assert s[n..] == b[pos + n..] && s[..n] == b[pos..pos + n];
    assert Split(s).frames[1..] == Split(b[pos + n..]).frames;
  }
}
