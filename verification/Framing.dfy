/**
 Length-prefixed framing of a byte stream: the encoder and the incremental framer. The two-byte header is the
 native 16-bit integer of the sender and the receiver, taken as little-endian on both.
 */
module Framing {

  const MAX_FRAME: nat := 0x1_0000

  type byte = x: int | 0 <= x < 256

  type Bytes = seq<byte>

  // ---------- the format on values ----------

  /** The length cast to 16 bits, low byte first. */
  function Header(len: nat): Bytes {
    [len % MAX_FRAME % 256, len % MAX_FRAME / 256]
  }

  function Encode(payload: Bytes): Bytes {
    Header(|payload|) + payload
  }

  function EncodeAll(messages: seq<Bytes>): Bytes {
    if messages == [] then [] else Encode(messages[0]) + EncodeAll(messages[1..])
  }

  function FrameLength(buffer: Bytes): nat
    requires |buffer| >= 2
  {
    (buffer[0] as int) + 256 * (buffer[1] as int)
  }

  /** The buffer starts with a whole frame. */
  predicate HasFrame(buffer: Bytes) {
    |buffer| >= 2 && |buffer| >= 2 + FrameLength(buffer)
  }

  predicate AllShort(messages: seq<Bytes>, limit: nat) {
    forall i :: 0 <= i < |messages| ==> |messages[i]| < limit
  }

  lemma HeaderRoundTrip(len: nat, rest: Bytes)
    ensures FrameLength(Header(len) + rest) == len % MAX_FRAME
  {
  }

  lemma HeaderOfBytes(low: byte, high: byte)
    ensures Header((low as int) + 256 * (high as int)) == [low, high]
    ensures (low as int) + 256 * (high as int) < MAX_FRAME
  {
    var n := (low as int) + 256 * (high as int);
    assert n % MAX_FRAME == n;
    assert n / 256 == high && n % 256 == low;
  }

  /** What is taken off the front of a buffer is the encoding of the frame it yields. */
  lemma FrameIsEncoded(buffer: Bytes)
    requires HasFrame(buffer)
    ensures var len := FrameLength(buffer);
            len < MAX_FRAME && buffer == Encode(buffer[2..2 + len]) + buffer[2 + len..]
  {
    var len := FrameLength(buffer);
    HeaderOfBytes(buffer[0], buffer[1]);
    assert |buffer[2..2 + len]| == len;
    assert buffer == [buffer[0], buffer[1]] + buffer[2..2 + len] + buffer[2 + len..];
  }

  lemma {:induction false} EncodeAllConcat(a: seq<Bytes>, b: seq<Bytes>)
    ensures EncodeAll(a + b) == EncodeAll(a) + EncodeAll(b)
  {
    if a == [] {
      assert a + b == b;
    } else {
      assert (a + b)[1..] == a[1..] + b;
      EncodeAllConcat(a[1..], b);
    }
  }

  lemma EncodeAllOne(m: Bytes)
    ensures EncodeAll([m]) == Encode(m)
  {
    assert EncodeAll([m][1..]) == [];
  }

  /** Two encodings that start the same stream start with the same message. */
  lemma FirstMessageAgrees(a: Bytes, x: Bytes, b: Bytes, y: Bytes)
    requires |a| < MAX_FRAME && |b| < MAX_FRAME
    requires Encode(a) + x <= Encode(b) + y
    ensures a == b && x <= y
  {
    var s, t := Encode(a) + x, Encode(b) + y;
    assert s[0] == t[0] && s[1] == t[1];
    assert s[0] == Header(|a|)[0] && s[1] == Header(|a|)[1] && t[0] == Header(|b|)[0] && t[1] == Header(|b|)[1];
    assert |a| == |b|;
    assert a == s[2..2 + |a|] == t[2..2 + |a|] == b;
    assert x == s[2 + |a|..] && y == t[2 + |a|..];
  }

  /** A stream that starts an encoded message list carries a prefix of that list. */
  lemma {:induction false} FramesArePrefix(frames: seq<Bytes>, buffer: Bytes, messages: seq<Bytes>)
    requires AllShort(frames, MAX_FRAME) && AllShort(messages, MAX_FRAME)
    requires EncodeAll(frames) + buffer <= EncodeAll(messages)
    ensures frames <= messages && buffer <= EncodeAll(messages[|frames|..])
  {
    if frames != [] {
      assert EncodeAll(frames) + buffer == Encode(frames[0]) + (EncodeAll(frames[1..]) + buffer);
      FirstMessageAgrees(frames[0], EncodeAll(frames[1..]) + buffer, messages[0], EncodeAll(messages[1..]));
      FramesArePrefix(frames[1..], buffer, messages[1..]);
      assert messages[1..][|frames| - 1..] == messages[|frames|..];
      assert frames == [frames[0]] + frames[1..];
    }
  }

  /** Without a whole frame, a buffer that starts an encoded list is a strict part of its first message's encoding. */
  lemma DrainedIsShort(buffer: Bytes, messages: seq<Bytes>)
    requires AllShort(messages, MAX_FRAME) && buffer <= EncodeAll(messages) && !HasFrame(buffer)
    ensures messages == [] ==> buffer == []
    ensures messages != [] ==> |buffer| < |Encode(messages[0])|
  {
    if messages != [] && |buffer| >= 2 {
      HeaderShows(buffer, messages[0], EncodeAll(messages[1..]));
    }
  }

  /** Two bytes of a stream are enough to know the first message's length. */
  lemma HeaderShows(buffer: Bytes, m: Bytes, rest: Bytes)
    requires |m| < MAX_FRAME && |buffer| >= 2 && buffer <= Encode(m) + rest
    ensures FrameLength(buffer) == |m|
  {
    var stream := Header(|m|) + (m + rest);
    assert Encode(m) + rest == stream;
    HeaderRoundTrip(|m|, m + rest);
    assert buffer[0] == stream[0] && buffer[1] == stream[1];
  }

  /** Frames and a drained buffer that make up an encoded list are that list and nothing. */
  lemma DrainedStreamIsDone(frames: seq<Bytes>, buffer: Bytes, messages: seq<Bytes>)
    requires AllShort(frames, MAX_FRAME) && AllShort(messages, MAX_FRAME)
    requires EncodeAll(frames) + buffer == EncodeAll(messages) && !HasFrame(buffer)
    ensures frames == messages && buffer == []
  {
    FramesArePrefix(frames, buffer, messages);
    var rest := messages[|frames|..];
    DrainedIsShort(buffer, rest);
    assert messages == frames + rest;
    EncodeAllConcat(frames, rest);
    assert |buffer| == |EncodeAll(rest)|;
  }

  // ---------- sessions: any interleaving of push and nextFrame ----------

  datatype Op = Push(chunk: Bytes) | Next

  /** The framer's buffer, the frames extracted, the bytes accepted and the pushes that overflowed. */
  datatype Session = Session(buffer: Bytes, frames: seq<Bytes>, accepted: Bytes, overflows: nat)

  const FRESH: Session := Session([], [], [], 0)

  function Pushed(max: nat, s: Session, chunk: Bytes): Session {
    if |s.buffer| + |chunk| > max then s.(overflows := s.overflows + 1)
    else s.(buffer := s.buffer + chunk, accepted := s.accepted + chunk)
  }

  function Nexted(s: Session): Session {
    if HasFrame(s.buffer) then
      var len := FrameLength(s.buffer);
      s.(buffer := s.buffer[2 + len..], frames := s.frames + [s.buffer[2..2 + len]])
    else s
  }

  function SessionRun(max: nat, ops: seq<Op>): Session {
    if ops == [] then FRESH
    else
      var s := SessionRun(max, ops[..|ops| - 1]);
      match ops[|ops| - 1]
      case Push(chunk) => Pushed(max, s, chunk)
      case Next => Nexted(s)
  }

  /** Re-encoding the frames and appending the buffer gives back every accepted byte. */
  ghost predicate Faithful(s: Session) {
    EncodeAll(s.frames) + s.buffer == s.accepted && AllShort(s.frames, MAX_FRAME)
  }

  lemma PushIsFaithful(max: nat, s: Session, chunk: Bytes)
    requires Faithful(s)
    ensures Faithful(Pushed(max, s, chunk))
  {
    assert EncodeAll(s.frames) + (s.buffer + chunk) == (EncodeAll(s.frames) + s.buffer) + chunk;
  }

  lemma NextIsFaithful(s: Session)
    requires Faithful(s)
    ensures Faithful(Nexted(s))
  {
    if HasFrame(s.buffer) {
      var len := FrameLength(s.buffer);
      var frame, rest := s.buffer[2..2 + len], s.buffer[2 + len..];
      FrameIsEncoded(s.buffer);
      FrameMoves(s.frames, frame, rest);
    }
  }

  lemma FrameMoves(frames: seq<Bytes>, frame: Bytes, rest: Bytes)
    ensures EncodeAll(frames + [frame]) + rest == EncodeAll(frames) + (Encode(frame) + rest)
  {
    EncodeAllConcat(frames, [frame]);
    EncodeAllOne(frame);
  }

  /** For any bytes and any interleaving of `push` and `nextFrame`, nothing is lost, added or reordered. */
  lemma {:induction false} SessionsAreFaithful(max: nat, ops: seq<Op>)
    ensures Faithful(SessionRun(max, ops))
  {
    if ops != [] {
      var s := SessionRun(max, ops[..|ops| - 1]);
      SessionsAreFaithful(max, ops[..|ops| - 1]);
      match ops[|ops| - 1] {
        case Push(chunk) => PushIsFaithful(max, s, chunk);
        case Next => NextIsFaithful(s);
      }
    }
  }

  /**
   Any list of messages under 65536 bytes, cut into any chunks, comes back unchanged: at every moment the frames are
   a prefix of the messages, and once all bytes are in and `nextFrame` finds no more, they are the messages.
   */
  lemma MessagesComeBack(max: nat, ops: seq<Op>, messages: seq<Bytes>)
    requires AllShort(messages, MAX_FRAME)
    requires SessionRun(max, ops).accepted <= EncodeAll(messages)
    ensures var s := SessionRun(max, ops);
            && s.frames <= messages
            && (!HasFrame(s.buffer) && s.accepted == EncodeAll(messages) ==> s.frames == messages && s.buffer == [])
  {
    var s := SessionRun(max, ops);
    SessionsAreFaithful(max, ops);
    FramesArePrefix(s.frames, s.buffer, messages);
    if !HasFrame(s.buffer) && s.accepted == EncodeAll(messages) {
      DrainedStreamIsDone(s.frames, s.buffer, messages);
    }
  }

  // ---------- draining after each chunk ----------

  function Drained(s: Session): (s': Session)
    ensures !HasFrame(s'.buffer) && s'.accepted == s.accepted && s'.overflows == s.overflows
    decreases |s.buffer|
  {
    if HasFrame(s.buffer) then Drained(Nexted(s)) else s
  }

  lemma {:induction false} DrainingIsFaithful(s: Session)
    requires Faithful(s)
    ensures Faithful(Drained(s))
    decreases |s.buffer|
  {
    if HasFrame(s.buffer) {
      NextIsFaithful(s);
      DrainingIsFaithful(Nexted(s));
    }
  }

  /** Push a chunk, then take all frames it completes; for each chunk in turn. */
  function ServeAll(max: nat, chunks: seq<Bytes>): Session {
    if chunks == [] then FRESH
    else Drained(Pushed(max, ServeAll(max, chunks[..|chunks| - 1]), chunks[|chunks| - 1]))
  }

  function Joined(chunks: seq<Bytes>): Bytes {
    if chunks == [] then [] else Joined(chunks[..|chunks| - 1]) + chunks[|chunks| - 1]
  }

  /** A drained framer that was fed part of a stream of payloads of at most `limit` bytes holds at most limit + 1 bytes. */
  lemma DrainedHoldsLittle(s: Session, messages: seq<Bytes>, limit: nat)
    requires Faithful(s) && !HasFrame(s.buffer)
    requires limit < MAX_FRAME && AllShort(messages, limit + 1) && s.accepted <= EncodeAll(messages)
    ensures |s.buffer| <= limit + 1
  {
    FramesArePrefix(s.frames, s.buffer, messages);
    DrainedIsShort(s.buffer, messages[|s.frames|..]);
  }

  /** With room for limit + 1 + chunk bytes and a drain after each chunk, no push ever overflows. */
  lemma {:induction false} EnoughRoomNeverOverflows(max: nat, chunks: seq<Bytes>, messages: seq<Bytes>, limit: nat, chunk: nat)
    requires limit < MAX_FRAME && AllShort(messages, limit + 1) && AllShort(chunks, chunk + 1)
    requires Joined(chunks) <= EncodeAll(messages)
    requires max >= limit + 1 + chunk
    ensures var s := ServeAll(max, chunks);
            s.overflows == 0 && s.accepted == Joined(chunks) && Faithful(s) && !HasFrame(s.buffer)
  {
    if chunks != [] {
      var n := |chunks| - 1;
      var s := ServeAll(max, chunks[..n]);
      assert Joined(chunks[..n]) <= EncodeAll(messages);
      EnoughRoomNeverOverflows(max, chunks[..n], messages, limit, chunk);
      DrainedHoldsLittle(s, messages, limit);
      PushIsFaithful(max, s, chunks[n]);
      DrainingIsFaithful(Pushed(max, s, chunks[n]));
    }
  }

  /** Hence such a feed delivers exactly the messages. */
  lemma ServedMessagesComeBack(max: nat, chunks: seq<Bytes>, messages: seq<Bytes>, limit: nat, chunk: nat)
    requires limit < MAX_FRAME && AllShort(messages, limit + 1) && AllShort(chunks, chunk + 1)
    requires Joined(chunks) == EncodeAll(messages) && max >= limit + 1 + chunk
    ensures ServeAll(max, chunks).frames == messages && ServeAll(max, chunks).buffer == []
  {
    var s := ServeAll(max, chunks);
    EnoughRoomNeverOverflows(max, chunks, messages, limit, chunk);
    DrainedStreamIsDone(s.frames, s.buffer, messages);
  }

  /** The chunks cut some part of a stream of payloads of at most `limit` bytes into pieces of at most `chunk` bytes. */
  ghost predicate Feeds(chunks: seq<Bytes>, messages: seq<Bytes>, limit: nat, chunk: nat) {
    AllShort(messages, limit + 1) && AllShort(chunks, chunk + 1) && Joined(chunks) <= EncodeAll(messages)
  }

  function Repeated(m: Bytes, n: nat): seq<Bytes> {
    seq(n, _ => m)
  }

  lemma {:induction false} RepeatedIsLong(m: Bytes, n: nat)
    requires n > 0
    ensures |EncodeAll(Repeated(m, n))| >= |m| + 1 + n
    ensures Encode(m) <= EncodeAll(Repeated(m, n))
  {
    assert Repeated(m, n)[1..] == Repeated(m, n - 1);
    if n > 1 {
      RepeatedIsLong(m, n - 1);
    }
  }

  /** The first k bytes of a stream, one by one. */
  function Singles(stream: Bytes, k: nat): seq<Bytes>
    requires k <= |stream|
  {
    seq(k, i requires 0 <= i < k => [stream[i]])
  }

  lemma ServeOneMore(max: nat, chunks: seq<Bytes>, chunk: Bytes)
    ensures ServeAll(max, chunks + [chunk]) == Drained(Pushed(max, ServeAll(max, chunks), chunk))
    ensures Joined(chunks + [chunk]) == Joined(chunks) + chunk
  {
    assert (chunks + [chunk])[..|chunks|] == chunks;
  }

  lemma PartIsNoFrame(m: Bytes, stream: Bytes, k: nat)
    requires |m| < MAX_FRAME && Encode(m) <= stream && k <= |m| + 1
    ensures !HasFrame(stream[..k])
  {
    if k >= 2 {
      HeaderRoundTrip(|m|, stream[2..k]);
      assert stream[..2] == Encode(m)[..2] == Header(|m|);
      assert stream[..k] == Header(|m|) + stream[2..k];
    }
  }

  lemma SinglesOneMore(stream: Bytes, k: nat)
    requires 0 < k <= |stream|
    ensures Singles(stream, k) == Singles(stream, k - 1) + [[stream[k - 1]]]
    ensures stream[..k] == stream[..k - 1] + [stream[k - 1]]
  {
  }

  /** Fed byte by byte, the framer holds all of the first message but its last byte, unless it overflowed on the way. */
  lemma {:induction false} SinglesPileUp(max: nat, m: Bytes, stream: Bytes, k: nat)
    requires |m| < MAX_FRAME && Encode(m) <= stream && k <= |m| + 1
    ensures Joined(Singles(stream, k)) == stream[..k]
    ensures ServeAll(max, Singles(stream, k)).overflows > 0 || ServeAll(max, Singles(stream, k)).buffer == stream[..k]
  {
    if k > 0 {
      SinglesPileUp(max, m, stream, k - 1);
      SinglesOneMore(stream, k);
      ServeOneMore(max, Singles(stream, k - 1), [stream[k - 1]]);
      PartIsNoFrame(m, stream, k);
    }
  }

  /** One more chunk, and the buffer would exceed a limit that small. */
  lemma LastChunkOverflows(max: nat, m: Bytes, stream: Bytes, last: Bytes)
    requires |m| < MAX_FRAME && Encode(m) <= stream && max < |m| + 1 + |last|
    ensures ServeAll(max, Singles(stream, |m| + 1) + [last]).overflows > 0
    ensures Joined(Singles(stream, |m| + 1) + [last]) == stream[..|m| + 1] + last
  {
    SinglesPileUp(max, m, stream, |m| + 1);
    ServeOneMore(max, Singles(stream, |m| + 1), last);
  }

  lemma TightFeed(max: nat, limit: nat, chunk: nat) returns (chunks: seq<Bytes>, messages: seq<Bytes>)
    requires limit < MAX_FRAME && chunk > 0 && max < limit + 1 + chunk
    ensures Feeds(chunks, messages, limit, chunk) && ServeAll(max, chunks).overflows > 0
  {
    var m: Bytes := seq(limit, _ => 0);
    messages := Repeated(m, chunk);
    RepeatedIsLong(m, chunk);
    var stream := EncodeAll(messages);
    var last := stream[limit + 1..limit + 1 + chunk];
    chunks := Singles(stream, limit + 1) + [last];
    ChunksAreShort(stream, limit + 1, last, chunk);
    LastChunkOverflows(max, m, stream, last);
    PrefixGrows(stream, limit + 1, limit + 1 + chunk);
  }

  lemma ChunksAreShort(stream: Bytes, k: nat, last: Bytes, chunk: nat)
    requires k <= |stream| && 0 < chunk && |last| <= chunk
    ensures AllShort(Singles(stream, k) + [last], chunk + 1)
  {
  }

  lemma PrefixGrows(stream: Bytes, j: nat, k: nat)
    requires j <= k <= |stream|
    ensures stream[..j] + stream[j..k] == stream[..k]
  {
  }

  /** The room asked for is exactly what is needed: with less, some stream in such chunks overflows. */
  lemma RoomBoundIsExact(max: nat, limit: nat, chunk: nat)
    requires limit < MAX_FRAME && chunk > 0
    ensures (forall chunks, messages :: Feeds(chunks, messages, limit, chunk) ==> ServeAll(max, chunks).overflows == 0)
            <==> max >= limit + 1 + chunk
  {
    if max >= limit + 1 + chunk {
      forall chunks, messages | Feeds(chunks, messages, limit, chunk)
        ensures ServeAll(max, chunks).overflows == 0
      {
        EnoughRoomNeverOverflows(max, chunks, messages, limit, chunk);
      }
    } else {
      var chunks, messages := TightFeed(max, limit, chunk);
      assert Feeds(chunks, messages, limit, chunk);
    }
  }

  // ---------- what longer messages do ----------

  /** One message survives encoding and framing exactly when it is shorter than 65536 bytes. */
  lemma LengthCastIsHarmlessIff(m: Bytes)
    ensures Drained(Session(Encode(m), [], Encode(m), 0)).frames == [m] <==> |m| < MAX_FRAME
  {
    var s := Session(Encode(m), [], Encode(m), 0);
    HeaderRoundTrip(|m|, m);
    var len := |m| % MAX_FRAME;
    assert HasFrame(s.buffer);
    assert s.buffer[2..2 + len] == m[..len];
    assert Nexted(s).frames == [m[..len]];
    if |m| < MAX_FRAME {
      assert m[..len] == m;
      assert Nexted(s).buffer == [];
    } else {
      FramesOnlyGrow(Nexted(s));
      assert Drained(s).frames[0] == m[..len];
      assert |m[..len]| != |m|;
    }
  }

  lemma {:induction false} FramesOnlyGrow(s: Session)
    ensures s.frames <= Drained(s).frames
    decreases |s.buffer|
  {
    if HasFrame(s.buffer) {
      FramesOnlyGrow(Nexted(s));
    }
  }

  // ---------- the two classes ----------

  class ByteVector {
    var bytes: Bytes

    constructor ()
      ensures bytes == []
    {
      bytes := [];
    }
  }

  class TcpEncoder {
    /** Appends one encoded message: grow, then copy the header and the payload to the end. */
    static method EncodeTo(payload: Bytes, out: ByteVector)
      modifies out
      ensures out.bytes == old(out.bytes) + Encode(payload)
      ensures out.bytes == old(out.bytes) + [|payload| % 0x1_0000 % 256, |payload| % 0x1_0000 / 256] + payload
    {
      var len := |payload|;
      var header := Header(len);
      var grown := out.bytes + seq(2 + len, _ => 0);
      var at := |grown| - (2 + len);
      grown := grown[..at] + header + grown[at + 2..];
      at := |grown| - len;
      grown := grown[..at] + payload;
      out.bytes := grown;
    }
  }

  class TcpFramer {
    const maxFrameSize: nat
    var buffer: Bytes
    ghost var ops: seq<Op>

    /** The buffer is that of the session of all calls so far. */
    ghost predicate Valid()
      reads this
    {
      buffer == SessionRun(maxFrameSize, ops).buffer
    }

    constructor (maxFrameSize: nat)
      ensures Valid() && this.maxFrameSize == maxFrameSize && ops == []
    {
      this.maxFrameSize := maxFrameSize;
      buffer, ops := [], [];
    }

    /** False stands for the overflow exception: the buffer is then left alone. */
    method Push(data: Bytes) returns (ok: bool)
      requires Valid()
      modifies this
      ensures Valid() && ops == old(ops) + [Op.Push(data)]
      ensures ok <==> |old(buffer)| + |data| <= maxFrameSize
      ensures buffer == if ok then old(buffer) + data else old(buffer)
    {
      ops := ops + [Op.Push(data)];
      assert ops[..|ops| - 1] == old(ops);
      if |buffer| + |data| > maxFrameSize {
        return false;
      }
      buffer := buffer + data;
      return true;
    }

    /** The frame given out joins the session's frames; without a whole frame the caller's vector stays. */
    method NextFrame(previous: Bytes) returns (ok: bool, frame: Bytes)
      requires Valid()
      modifies this
      ensures Valid() && ops == old(ops) + [Next]
      ensures ok <==> HasFrame(old(buffer))
      ensures ok <==> |old(buffer)| >= 2 && |old(buffer)| - 2 >= old(buffer)[0] as int + 256 * (old(buffer)[1] as int)
      ensures ok ==> |frame| == old(buffer)[0] as int + 256 * (old(buffer)[1] as int)
      ensures ok ==> old(buffer) == Encode(frame) + buffer
      ensures SessionRun(maxFrameSize, ops).frames
              == SessionRun(maxFrameSize, old(ops)).frames + (if ok then [frame] else [])
      ensures !ok ==> frame == previous && buffer == old(buffer)
    {
      ops := ops + [Next];
      assert ops[..|ops| - 1] == old(ops);
      if |buffer| < 2 {
        return false, previous;
      }
      var frameLen: nat := (buffer[0] as int) + 256 * (buffer[1] as int);
      if |buffer| < 2 + frameLen {
        return false, previous;
      }
      FrameIsEncoded(buffer);
      frame := buffer[2..2 + frameLen];
      buffer := buffer[2 + frameLen..];
      return true, frame;
    }
  }
}
