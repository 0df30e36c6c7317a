/** The SVS wire format and the framing of a received byte stream. */
module VmsFrames {

  type byte = x: int | 0 <= x < 256

  // The packed header: version (2 bytes), type (4), transaction number (2), packet length (4), in host order
  // of the little-endian machines the stack runs on.
  const HEADER_SIZE: nat := 12
  const PROTOCOL_VERSION: nat := 0x0100
  const TYPE_HEARTBEAT: nat := 2
  const MAX_RECV_BUFF: nat := 512 * 1024

  function U16(s: seq<byte>, i: nat): (n: nat)
    requires i + 2 <= |s|
    ensures n < 0x1_0000
  {
    (s[i] as int) + 0x100 * (s[i + 1] as int)
  }

  function U32(s: seq<byte>, i: nat): nat
    requires i + 4 <= |s|
  {
    U16(s, i) + 0x1_0000 * U16(s, i + 2)
  }

  function Version(s: seq<byte>): nat requires |s| >= HEADER_SIZE { U16(s, 0) }
  function MsgType(s: seq<byte>): nat requires |s| >= HEADER_SIZE { U32(s, 2) }
  function TransNo(s: seq<byte>): (n: nat) requires |s| >= HEADER_SIZE ensures n < 0x1_0000 { U16(s, 6) }
  function PacketLength(s: seq<byte>): nat requires |s| >= HEADER_SIZE { U32(s, 8) }

  type Frame = s: seq<byte> | |s| >= HEADER_SIZE witness seq(HEADER_SIZE, _ => 0)

  /** How the framing of some bytes ends: an incomplete frame, or a frame that cannot be accepted. */
  datatype Tail = Rest(rest: seq<byte>) | BadLength | BadVersion

  datatype Framing = Framing(frames: seq<Frame>, tail: Tail)

  function Then(frames: seq<Frame>, f: Framing): Framing {
    Framing(frames + f.frames, f.tail)
  }

  /** One-shot framing of a byte string. The length is checked as soon as the header is there, the version only
      when the frame is complete. */
  function Split(s: seq<byte>): Framing
    decreases |s|
  {
    if |s| < HEADER_SIZE then Framing([], Rest(s))
    else if PacketLength(s) < HEADER_SIZE then Framing([], BadLength)
    else if |s| < PacketLength(s) then Framing([], Rest(s))
    else if Version(s) != PROTOCOL_VERSION then Framing([], BadVersion)
    else Then([s[..PacketLength(s)]], Split(s[PacketLength(s)..]))
  }

  lemma ThenThen(a: seq<Frame>, b: seq<Frame>, f: Framing)
    ensures Then(a, Then(b, f)) == Then(a + b, f)
  {
    assert a + (b + f.frames) == (a + b) + f.frames;
  }

  /** Framing can be resumed: what was left of a is all that matters once b arrives, and a bad frame stays bad. */
  lemma {:induction false} SplitResumes(a: seq<byte>, b: seq<byte>)
    ensures Split(a + b) ==
              match Split(a).tail {
                case Rest(rest) => Then(Split(a).frames, Split(rest + b))
                case _ => Split(a)
              }
    decreases |a|
  {
    if |a| >= HEADER_SIZE {
      SameHeader(a, b);
      var n := PacketLength(a);
      if HEADER_SIZE <= n <= |a| && Version(a) == PROTOCOL_VERSION {
        assert (a + b)[..n] == a[..n];
        assert (a + b)[n..] == a[n..] + b;
        SplitResumes(a[n..], b);
        if Split(a[n..]).tail.Rest? {
          ThenThen([a[..n]], Split(a[n..]).frames, Split(Split(a[n..]).tail.rest + b));
        }
      }
    }
  }

  lemma SameHeader(a: seq<byte>, b: seq<byte>)
    requires |a| >= HEADER_SIZE
    ensures PacketLength(a + b) == PacketLength(a) && Version(a + b) == Version(a)
  {
    assert forall i | 0 <= i < HEADER_SIZE :: (a + b)[i] == a[i];
  }

  predicate Complete(f: Frame) {
    PacketLength(f) == |f| && Version(f) == PROTOCOL_VERSION
  }

  /** Nothing is lost, added or reordered: frames and rest put back together are the input, the frames are complete,
      and the rest holds no complete frame. */
  lemma {:induction false} SplitExact(s: seq<byte>)
    requires Split(s).tail.Rest?
    ensures Flatten(Split(s).frames) + Split(s).tail.rest == s
    ensures forall f | f in Split(s).frames :: Complete(f)
    ensures var r := Split(s).tail.rest; |r| < HEADER_SIZE || |r| < PacketLength(r)
    decreases |s|
  {
    if |s| >= HEADER_SIZE && PacketLength(s) <= |s| {
      var f, more := s[..PacketLength(s)], s[PacketLength(s)..];
      SplitExact(more);
      SplitStep(s, f, more, Split(more));
    }
  }

  lemma SplitStep(s: seq<byte>, f: Frame, more: seq<byte>, rest: Framing)
    requires |s| >= HEADER_SIZE && |f| == PacketLength(s) <= |s| && f == s[..|f|] && more == s[|f|..]
    requires Version(s) == PROTOCOL_VERSION
    requires rest.tail.Rest? && Flatten(rest.frames) + rest.tail.rest == more
    requires forall g | g in rest.frames :: Complete(g)
    ensures Flatten(([f] + rest.frames)) + rest.tail.rest == s
    ensures forall g | g in [f] + rest.frames :: Complete(g)
  {
    assert f + more == s;
    SameHeader(f, more);
    FlattenConcat([f], rest.frames);
    assert Flatten([f]) == f + [];
    assert f + (Flatten(rest.frames) + rest.tail.rest) == f + Flatten(rest.frames) + rest.tail.rest;
  }

  function Flatten(parts: seq<seq<byte>>): seq<byte> {
    if parts == [] then [] else parts[0] + Flatten(parts[1..])
  }

  lemma {:induction false} FlattenConcat(a: seq<seq<byte>>, b: seq<seq<byte>>)
    ensures Flatten(a + b) == Flatten(a) + Flatten(b)
  {
    if a == [] {
      assert a + b == b;
    } else {
      assert (a + b)[1..] == a[1..] + b;
      FlattenConcat(a[1..], b);
      assert a[0] + (Flatten(a[1..]) + Flatten(b)) == a[0] + Flatten(a[1..]) + Flatten(b);
    }
  }

  // ----- in chunks -----

  /** Framing after each chunk, keeping the rest for the next one, until a frame is bad. */
  function Feed(f: Framing, chunks: seq<seq<byte>>): Framing
    decreases |chunks|
  {
    if chunks == [] || !f.tail.Rest? then f
    else Feed(Then(f.frames, Split(f.tail.rest + chunks[0])), chunks[1..])
  }

  /** However a stream is cut into chunks, the same frames come out, the same first bad frame stops it,
      and the same bytes are left. */
  lemma {:induction false} FeedIsSplit(seen: seq<byte>, chunks: seq<seq<byte>>)
    ensures Feed(Split(seen), chunks) == Split(seen + Flatten(chunks))
    decreases |chunks|
  {
    if chunks == [] {
      assert seen + [] == seen;
    } else if Split(seen).tail.Rest? {
      SplitResumes(seen, chunks[0]);
      FeedIsSplit(seen + chunks[0], chunks[1..]);
      SeenGrows(seen, chunks[0], Flatten(chunks[1..]));
    } else {
      SplitResumes(seen, Flatten(chunks));
    }
  }

  lemma SeenGrows(seen: seq<byte>, chunk: seq<byte>, more: seq<byte>)
    ensures (seen + chunk) + more == seen + (chunk + more)
  {
  }

  lemma ChunkingDoesNotMatter(one: seq<seq<byte>>, other: seq<seq<byte>>)
    requires Flatten(one) == Flatten(other)
    ensures Feed(Split([]), one) == Feed(Split([]), other) == Split(Flatten(one))
  {
    FeedIsSplit([], one);
    FeedIsSplit([], other);
    assert [] + Flatten(one) == Flatten(one);
  }
}
