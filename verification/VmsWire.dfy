/** Messages and their bytes: framing undoes writing, and takes nothing but written messages. */
module VmsWire {
  import opened VmsFrames

  /** n in k bytes, the lowest first. */
  function Little(n: nat, k: nat): (s: seq<byte>)
    ensures |s| == k
  {
    if k == 0 then [] else [n % 0x100] + Little(n / 0x100, k - 1)
  }

  /** What an application fills in: 32 bits of type, 16 bits of transaction number, and the bytes behind the header. */
  datatype Message = Message(kind: nat, number: nat, payload: seq<byte>)

  predicate Fits(m: Message) {
    m.kind < 0x1_0000_0000 && m.number < 0x1_0000 && |m.payload| < 0x1_0000_0000 - 12
  }

  /** Version 0x0100, type, number, length and payload. */
  function Wire(m: Message): (f: Frame) {
    [0x00, 0x01] + Little(m.kind, 4) + Little(m.number, 2) + Little(12 + |m.payload|, 4) + m.payload
  }

  function Wires(ms: seq<Message>): seq<Frame> {
    if ms == [] then [] else [Wire(ms[0])] + Wires(ms[1..])
  }

  lemma Little2(n: nat)
    requires n < 0x1_0000
    ensures Little(n, 2) == [n % 0x100, n / 0x100]
  {
    assert Little(n / 0x100, 1) == [n / 0x100 % 0x100] + Little(n / 0x100 / 0x100, 0);
  }

  lemma Little4(n: nat)
    requires n < 0x1_0000_0000
    ensures var s := Little(n, 4);
            n == (s[0] as int) + 0x100 * (s[1] as int) + 0x1_0000 * (s[2] as int) + 0x100_0000 * (s[3] as int)
  {
    var a, b, c := n / 0x100, n / 0x100 / 0x100, n / 0x100 / 0x100 / 0x100;
    assert Little(c, 1) == [c % 0x100] + Little(c / 0x100, 0);
    assert Little(b, 2) == [b % 0x100] + Little(c, 1);
    assert Little(a, 3) == [a % 0x100] + Little(b, 2);
    assert n == n % 0x100 + 0x100 * a && a == a % 0x100 + 0x100 * b && b == b % 0x100 + 0x100 * c;
  }

  /** The header fields are read back. */
  lemma WireReads(m: Message)
    requires Fits(m)
    ensures var f := Wire(m);
            && Complete(f) && f[12..] == m.payload
            && MsgType(f) == m.kind && TransNo(f) == m.number && PacketLength(f) == |f| == 12 + |m.payload|
  {
    var f, kind, number, length := Wire(m), Little(m.kind, 4), Little(m.number, 2), Little(12 + |m.payload|, 4);
    Little4(m.kind);
    Little2(m.number);
    Little4(12 + |m.payload|);
    assert f[0] == 0 && f[1] == 1 && f[6] == number[0] && f[7] == number[1];
    assert forall i | 0 <= i < 4 :: f[2 + i] == kind[i] && f[8 + i] == length[i];
  }

  lemma LittleBack(s: seq<byte>, k: nat, n: nat)
    requires k == |s|
    requires (k == 2 && n == U16(s, 0)) || (k == 4 && n == U32(s, 0))
    ensures Little(n, k) == s
  {
    if k == 2 {
      Little2(n);
    } else {
      var a, b, c := n / 0x100, n / 0x100 / 0x100, n / 0x100 / 0x100 / 0x100;
      assert a == (s[1] as int) + 0x100 * (s[2] as int) + 0x1_0000 * (s[3] as int);
      assert b == (s[2] as int) + 0x100 * (s[3] as int) && c == s[3] as int;
      assert Little(c, 1) == [c % 0x100] + Little(c / 0x100, 0);
      assert Little(b, 2) == [b % 0x100] + Little(c, 1);
      assert Little(a, 3) == [a % 0x100] + Little(b, 2);
    }
  }

  /** Every complete frame is a written message. */
  lemma FrameIsWritten(f: Frame)
    requires Complete(f) && |f| < 0x1_0000_0000
    ensures var m := Message(MsgType(f), TransNo(f), f[12..]); Fits(m) && f == Wire(m)
  {
    LittleBack(f[2..6], 4, MsgType(f));
    LittleBack(f[6..8], 2, TransNo(f));
    LittleBack(f[8..12], 4, PacketLength(f));
    assert f[..2] == [0x00, 0x01];
    assert f == f[..2] + f[2..6] + f[6..8] + f[8..12] + f[12..];
  }

  lemma FirstIsCut(f: Frame, more: seq<byte>)
    requires Complete(f)
    ensures Split(f + more) == Then([f], Split(more))
  {
    SameHeader(f, more);
    assert (f + more)[..|f|] == f && (f + more)[|f|..] == more;
  }

  lemma UnfinishedIsKept(f: Frame, part: seq<byte>)
    requires Complete(f) && part < f
    ensures Split(part) == Framing([], Rest(part))
  {
    if |part| >= HEADER_SIZE {
      SameHeader(part, f[|part|..]);
      assert part + f[|part|..] == f;
    }
  }

  /** A stream of messages, whatever they carry, is cut back into exactly these messages, and an unfinished one behind
      them is kept. */
  lemma {:induction false} FramingUndoesWriting(ms: seq<Message>, last: Message, part: seq<byte>)
    requires (forall m | m in ms :: Fits(m)) && Fits(last) && part < Wire(last)
    ensures Split(Flatten(Wires(ms)) + part) == Framing(Wires(ms), Rest(part))
    decreases |ms|
  {
    if ms == [] {
      assert [] + part == part;
      WireReads(last);
      UnfinishedIsKept(Wire(last), part);
    } else {
      var f: Frame, rest: seq<byte> := Wire(ms[0]), Flatten(Wires(ms[1..]));
      WireReads(ms[0]);
      FramingUndoesWriting(ms[1..], last, part);
      FirstIsCut(f, rest + part);
      assert ([f] + Wires(ms[1..]))[1..] == Wires(ms[1..]);
      SeenGrows(f, rest, part);
    }
  }

  /** What is refused: an announced length below twelve, as soon as the header is there, and a complete frame of another
      version. */
  lemma RefusesExactly(s: seq<byte>)
    requires |s| >= 12
    ensures Announced(s) < 12 ==> Split(s) == Framing([], BadLength)
    ensures |s| < Announced(s) ==> Split(s) == Framing([], Rest(s))
    ensures 12 <= Announced(s) <= |s| ==>
              if s[0] == 0x00 && s[1] == 0x01 then |Split(s).frames| > 0 && Split(s).frames[0] == s[..Announced(s)]
              else Split(s) == Framing([], BadVersion)
  {
    AnnouncedIs(s);
  }

  /** Bytes 8 to 11, the lowest first. */
  function Announced(s: seq<byte>): nat
    requires |s| >= 12
  {
    (s[8] as int) + 0x100 * (s[9] as int) + 0x1_0000 * (s[10] as int) + 0x100_0000 * (s[11] as int)
  }

  lemma AnnouncedIs(s: seq<byte>)
    requires |s| >= 12
    ensures PacketLength(s) == Announced(s) && (Version(s) == PROTOCOL_VERSION <==> s[0] == 0x00 && s[1] == 0x01)
  {
  }
}
