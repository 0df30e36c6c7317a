/** What sendMsg answers, in numbers. */
module VmsSends {
  import opened VmsFrames
  import opened VmsLink
  import opened VmsRuns
  import opened VmsWire

  /** A message is refused exactly when the link is not connected, the length in its header is not its own, the socket
      is broken, or 2000 messages wait in the queue already. A refused one leaves everything as it was, but for the flag
      when the socket broke. */
  lemma RefusedExactly(w: World, msg: Frame, timeout: nat, res: SendResult, now: int)
    requires Taken(res) <= |msg|
    ensures var l, (w1, code) := w.link, SendMsg(w, msg, timeout, res, now);
            && (code != Ok <==> l.flag != Connected || Announced(msg) != |msg| || (l.queue == [] && res.Broken?)
                                || |l.queue| >= 2000)
            && (code != Ok ==> w1 == w.(link := l.(flag := if code == Fail then Closing else l.flag)))
            && (code == Fail <==> l.flag == Connected && Announced(msg) == |msg| && l.queue == [] && res.Broken?)
  {
    AnnouncedIs(msg);
  }

  /** A message that was not refused: all its bytes are on the wire or behind the queue; it counts as a request exactly
      if it has a timeout and a number below 0x8000; and the messages before it are where they were. */
  lemma TakenExactly(w: World, msg: Frame, timeout: nat, res: SendResult, now: int)
    requires Conserved(w) && Taken(res) <= |msg| && SendMsg(w, msg, timeout, res, now).1 == Ok
    ensures var l, h, w1 := w.link, w.hist, SendMsg(w, msg, timeout, res, now).0;
            && w1.hist.wire + Unsent(w1.link.queue) == h.wire + Unsent(l.queue) + msg
            && w1.hist.requests
               == h.requests + multiset(if timeout > 0 && Number(msg) < 0x8000 then [Number(msg)] else [])
            && (if l.queue == [] then w1.hist.wire == h.wire + msg[..Taken(res)] else w1.hist.wire == h.wire)
            && l.queue <= w1.link.queue && |w1.link.queue| <= |l.queue| + 1
            && w1.link.flag == Connected
  {
    SendConserves(w, msg, timeout, res, now);
  }

  /** Bytes 6 and 7, the lower first. */
  function Number(f: Frame): nat {
    (f[6] as int) + 0x100 * (f[7] as int)
  }
}
