/** The RedWire client connection as a value: a pure parser over the received
    byte stream, the connection's reaction to each event, and what holds over
    every run of events.  `Connection.dfy` is the imperative machine that
    refines it. */
module FrameStream {
  import opened Prelude

  const FRAME_HEADER_SIZE: nat := 16
  const MAX_FRAME_SIZE: nat := 16 * 1024 * 1024
  const MSG_ERROR: byte := 0x03
  const MSG_AUTH_FAIL: byte := 0x15
  const MSG_BYE: byte := 0x16

  // ---------------------------------------------------------------- frames

  datatype Frame = Frame(kind: byte, payload: seq<byte>)

  datatype EncodeError = FrameTooLarge(size: nat) | CorrelationOutOfRange

  /** One encoded frame: length, kind, flags, stream id, correlation id, payload. */
  function FrameBytes(kind: byte, corr: nat, payload: seq<byte>): (r: Result<seq<byte>, EncodeError>)
    ensures r.Ok? <==> FRAME_HEADER_SIZE + |payload| <= MAX_FRAME_SIZE && corr < Pow256(8)
    ensures r.Ok? ==> |r.value| == FRAME_HEADER_SIZE + |payload|
  {
    var size := FRAME_HEADER_SIZE + |payload|;
    if size > MAX_FRAME_SIZE then Err(FrameTooLarge(size))
    else if corr >= Pow256(8) then Err(CorrelationOutOfRange)
    else Ok(LittleEndian(size, 4) + [kind, 0] + LittleEndian(0, 2) + LittleEndian(corr, 8) + payload)
  }

  /** What cutting a stream into frames yields: the complete frames, the length
      field that made the stream unreadable (if any), and the bytes left over. */
  datatype Parsed = Parsed(frames: seq<Frame>, badLength: Option<nat>, rest: seq<byte>)

  function Prepend(frames: seq<Frame>, p: Parsed): Parsed {
    Parsed(frames + p.frames, p.badLength, p.rest)
  }

  predicate ReadableLength(length: nat) {
    FRAME_HEADER_SIZE <= length <= MAX_FRAME_SIZE
  }

  /** What stands at the front of a stream. */
  datatype Cut = Incomplete | Unreadable(length: nat) | Whole(frame: Frame, size: nat)

  function FirstFrame(s: seq<byte>): (cut: Cut)
    ensures cut.Whole? ==> FRAME_HEADER_SIZE <= cut.size <= |s|
  {
    if |s| < FRAME_HEADER_SIZE then Incomplete
    else
      var length := FromLittleEndian(s[..4]);
      if !ReadableLength(length) then Unreadable(length)
      else if |s| < length then Incomplete
      else Whole(Frame(s[4], s[FRAME_HEADER_SIZE..length]), length)
  }

  /** The length field of a header, least significant byte first. */
  function LengthField(s: seq<byte>): nat
    requires |s| >= 4
  {
    var a: int, b: int, c: int, d: int := s[0], s[1], s[2], s[3];
    a + 0x100 * b + 0x1_0000 * c + 0x100_0000 * d
  }

  /** What is cut, byte by byte: sixteen bytes are awaited, a length below sixteen
      or above 16 MiB is unreadable, and a frame is whole once all of it is there. */
  lemma CutExactly(s: seq<byte>)
    ensures FirstFrame(s).Incomplete? <==> |s| < 16 || (16 <= LengthField(s) <= 0x100_0000 && |s| < LengthField(s))
    ensures |s| >= 16 && !(16 <= LengthField(s) <= 0x100_0000) ==> FirstFrame(s) == Unreadable(LengthField(s))
    ensures |s| >= 16 && 16 <= LengthField(s) <= 0x100_0000 && |s| >= LengthField(s) ==>
              FirstFrame(s) == Whole(Frame(s[4], s[16..LengthField(s)]), LengthField(s))
  {
    if |s| >= 16 { FourBytes(s[..4]); }
  }

  lemma FourBytes(s: seq<byte>)
    requires |s| == 4
    ensures FromLittleEndian(s) == LengthField(s)
  {
    assert s[1..][0] == s[1] && s[1..][1..] == s[2..];
    assert s[2..][0] == s[2] && s[2..][1..] == s[3..];
    assert s[3..][0] == s[3] && s[3..][1..] == [];
    assert FromLittleEndian([]) == 0;
    var b: int, c: int, d: int := s[1], s[2], s[3];
    assert FromLittleEndian(s[3..]) == d;
    assert FromLittleEndian(s[2..]) == c + 0x100 * d;
    assert FromLittleEndian(s[1..]) == b + 0x100 * (c + 0x100 * d);
  }

  /** Bytes that arrive later never change a decision already possible. */
  lemma FirstFrameStable(s: seq<byte>, t: seq<byte>)
    requires !FirstFrame(s).Incomplete?
    ensures FirstFrame(s + t) == FirstFrame(s)
  {
    assert (s + t)[..4] == s[..4];
    var cut := FirstFrame(s);
    if cut.Whole? {
      assert (s + t)[FRAME_HEADER_SIZE..cut.size] == s[FRAME_HEADER_SIZE..cut.size];
    }
  }

  /** Cuts at most n frames off the front of s. */
  function ParseFrames(s: seq<byte>, n: nat): (p: Parsed)
    ensures |p.frames| <= n
    decreases n
  {
    if n == 0 then Parsed([], None, s)
    else
      match FirstFrame(s)
      case Incomplete => Parsed([], None, s)
      case Unreadable(length) => Parsed([], Some(length), [])
      case Whole(frame, size) => Prepend([frame], ParseFrames(s[size..], n - 1))
  }

  lemma PrependAssociates(f: seq<Frame>, g: seq<Frame>, p: Parsed)
    ensures Prepend(f, Prepend(g, p)) == Prepend(f + g, p)
    ensures Prepend([], p) == p
  {
    assert f + (g + p.frames) == (f + g) + p.frames;
  }

  /** Parsing a longer stream for more requests resumes exactly where parsing
      the shorter one stopped, and an unreadable stream stays unreadable at the
      same frame whatever follows. */
  lemma {:induction false} ParseResumes(s: seq<byte>, t: seq<byte>, n: nat, m: nat)
    ensures
      var p := ParseFrames(s, n);
      ParseFrames(s + t, n + m) ==
      if p.badLength.Some? then p else Prepend(p.frames, ParseFrames(p.rest + t, n - |p.frames| + m))
    decreases n
  {
    hide FirstFrame;
    if n == 0 || FirstFrame(s).Incomplete? {
      PrependAssociates([], [], ParseFrames(s + t, n + m));
    } else {
      FirstFrameStable(s, t);
      var cut := FirstFrame(s);
      if cut.Whole? {
        assert (s + t)[cut.size..] == s[cut.size..] + t;
        ParseResumes(s[cut.size..], t, n - 1, m);
        var q := ParseFrames(s[cut.size..], n - 1);
        if q.badLength.None? {
          PrependAssociates([cut.frame], q.frames, ParseFrames(q.rest + t, n - 1 - |q.frames| + m));
        }
      }
    }
  }

  /** The parser inverts the encoder: an encoded frame at the front of a stream
      is the next frame cut. */
  lemma ParseEncoded(kind: byte, corr: nat, payload: seq<byte>, t: seq<byte>, n: nat)
    requires FrameBytes(kind, corr, payload).Ok?
    requires n > 0
    ensures ParseFrames(FrameBytes(kind, corr, payload).value + t, n) ==
            Prepend([Frame(kind, payload)], ParseFrames(t, n - 1))
  {
    var b := FrameBytes(kind, corr, payload).value;
    var size := FRAME_HEADER_SIZE + |payload|;
    assert Pow256(4) == 4294967296;
    LittleEndianRoundTrip(size, 4);
    assert (b + t)[..4] == LittleEndian(size, 4);
    assert (b + t)[FRAME_HEADER_SIZE..size] == payload;
    assert (b + t)[size..] == t;
  }

  // ------------------------------------------------------------ connection

  datatype Failure = InvalidLength(length: nat) | ConnectionClosed | SocketError(code: nat)

  /** How one request's promise is settled. */
  datatype Reply = Resolved(frame: Frame) | EngineError(payload: seq<byte>) | Rejected(why: Failure)

  datatype Settlement = Settlement(request: nat, reply: Reply)

  function ReplyTo(f: Frame): Reply {
    if f.kind == MSG_ERROR || f.kind == MSG_AUTH_FAIL then EngineError(f.payload) else Resolved(f)
  }

  /** A connection.  Requests are numbered in the order they are queued;
      `settled` lists the promise settlements in the order they happen. */
  datatype Conn = Conn(
    buffer: seq<byte>,
    pending: seq<nat>,
    settled: seq<Settlement>,
    failure: Option<Failure>,
    queued: nat,
    nextCorr: nat,
    sent: seq<seq<byte>>)

  const FRESH := Conn([], [], [], None, 0, 1, [])

  function Settlements(pending: seq<nat>, frames: seq<Frame>): (s: seq<Settlement>)
    requires |frames| <= |pending|
    ensures |s| == |frames|
  {
    seq(|frames|, i requires 0 <= i < |frames| => Settlement(pending[i], ReplyTo(frames[i])))
  }

  function Rejections(pending: seq<nat>, why: Failure): (s: seq<Settlement>)
    ensures |s| == |pending|
  {
    seq(|pending|, i requires 0 <= i < |pending| => Settlement(pending[i], Rejected(why)))
  }

  function Fail(c: Conn, why: Failure): Conn {
    if c.failure.Some? then c
    else c.(failure := Some(why), buffer := [], pending := [],
            settled := c.settled + Rejections(c.pending, why))
  }

  /** Hands frames to the oldest pending requests and keeps rest buffered. */
  function Settle(c: Conn, frames: seq<Frame>, rest: seq<byte>): Conn
    requires |frames| <= |c.pending|
  {
    c.(pending := c.pending[|frames|..],
       settled := c.settled + Settlements(c.pending, frames),
       buffer := rest)
  }

  function OnData(c: Conn, chunk: seq<byte>): Conn {
    if c.failure.Some? || chunk == [] then c
    else
      var p := ParseFrames(c.buffer + chunk, |c.pending|);
      var served := Settle(c, p.frames, p.rest);
      if p.badLength.Some? then Fail(served, InvalidLength(p.badLength.value)) else served
  }

  function Send(c: Conn, kind: byte, payload: seq<byte>, writeError: Option<nat>): Conn {
    if c.failure.Some? then c
    else
      var request := FrameBytes(kind, c.nextCorr, payload);
      var numbered := c.(nextCorr := c.nextCorr + 1);
      if request.Err? then numbered
      else
        var waiting := numbered.(pending := c.pending + [c.queued], queued := c.queued + 1);
        match writeError
        case None => waiting.(sent := c.sent + [request.value])
        case Some(code) => Fail(waiting, SocketError(code))
  }

  function Close(c: Conn, writeError: Option<nat>): Conn {
    if c.failure.Some? then c
    else
      var bye := FrameBytes(MSG_BYE, c.nextCorr, []);
      if bye.Err? || writeError.Some? then Fail(c, ConnectionClosed)
      else Fail(c.(sent := c.sent + [bye.value], nextCorr := c.nextCorr + 1), ConnectionClosed)
  }

  datatype Event =
    | Data(chunk: seq<byte>)
    | Request(kind: byte, payload: seq<byte>, writeError: Option<nat>)
    | PeerError(code: nat)
    | PeerClosed
    | LocalClose(writeError: Option<nat>)

  function Step(c: Conn, e: Event): Conn {
    match e
    case Data(chunk) => OnData(c, chunk)
    case Request(kind, payload, writeError) => Send(c, kind, payload, writeError)
    case PeerError(code) => Fail(c, SocketError(code))
    case PeerClosed => Fail(c, ConnectionClosed)
    case LocalClose(writeError) => Close(c, writeError)
  }

  function Run(c: Conn, events: seq<Event>): Conn
    decreases |events|
  {
    if events == [] then c else Run(Step(c, events[0]), events[1..])
  }

  /** A failed connection never changes again: nothing is queued, settled,
      buffered or written. */
  lemma {:induction false} FailureIsFinal(c: Conn, events: seq<Event>)
    requires c.failure.Some?
    ensures Run(c, events) == c
    decreases |events|
  {
    if events != [] { FailureIsFinal(c, events[1..]); }
  }

  // ----------------------------------------------- chunking independence

  function Concat(chunks: seq<seq<byte>>): seq<byte> {
    if chunks == [] then [] else chunks[0] + Concat(chunks[1..])
  }

  function DataEvents(chunks: seq<seq<byte>>): (events: seq<Event>)
    ensures |events| == |chunks|
  {
    seq(|chunks|, i requires 0 <= i < |chunks| => Data(chunks[i]))
  }

  lemma SettleTwice(c: Conn, f: seq<Frame>, g: seq<Frame>, r: seq<byte>, s: seq<byte>)
    requires |f| + |g| <= |c.pending|
    ensures Settle(Settle(c, f, r), g, s) == Settle(c, f + g, s)
  {
    var left := Settle(Settle(c, f, r), g, s);
    var right := Settle(c, f + g, s);
    assert Settlements(c.pending, f + g) ==
           Settlements(c.pending, f) + Settlements(c.pending[|f|..], g);
    assert left.settled == right.settled;
    assert left.pending == right.pending;
  }

  lemma NoData(c: Conn)
    ensures OnData(c, []) == c
  {
  }

  /** Two data events are one: splitting a chunk anywhere changes nothing. */
  lemma DataSplits(c: Conn, a: seq<byte>, b: seq<byte>)
    ensures OnData(OnData(c, a), b) == OnData(c, a + b)
  {
    hide ParseFrames;
    if a == [] || b == [] || c.failure.Some? {
      assert a + [] == a && [] + b == b;
    } else {
      var n := |c.pending|;
      var p := ParseFrames(c.buffer + a, n);
      ParseResumes(c.buffer + a, b, n, 0);
      assert c.buffer + a + b == c.buffer + (a + b);
      if p.badLength.None? {
        var q := ParseFrames(p.rest + b, n - |p.frames|);
        SettleTwice(c, p.frames, q.frames, p.rest, q.rest);
      }
    }
  }

  /** However a byte stream is cut into chunks, the connection ends in the very
      state it reaches when the whole stream arrives at once: same settlements
      in the same order, same failure, same bytes left over. */
  lemma {:induction false} ChunkingIndependence(c: Conn, chunks: seq<seq<byte>>)
    ensures Run(c, DataEvents(chunks)) == OnData(c, Concat(chunks))
    decreases |chunks|
  {
    if chunks != [] {
      assert DataEvents(chunks)[1..] == DataEvents(chunks[1..]);
      ChunkingIndependence(OnData(c, chunks[0]), chunks[1..]);
      DataSplits(c, chunks[0], Concat(chunks[1..]));
    }
  }

  // ------------------------------------------------------ request settlement

  /** All the bytes the peer delivered during a run. */
  function Received(events: seq<Event>): seq<byte> {
    if events == [] then []
    else (if events[0].Data? then events[0].chunk else []) + Received(events[1..])
  }

  /** Settlements are in queue order, and pending requests are exactly the
      queued ones not yet settled. */
  predicate QueueOrder(c: Conn) {
    && c.queued == |c.settled| + |c.pending|
    && (forall k :: 0 <= k < |c.settled| ==> c.settled[k].request == k)
    && (forall k :: 0 <= k < |c.pending| ==> c.pending[k] == |c.settled| + k)
  }

  /** `frames` are the frames handed out so far, and they are what the pure
      parser cuts from the received bytes. */
  predicate Tracks(c: Conn, received: seq<byte>, frames: seq<Frame>) {
    && QueueOrder(c)
    && |frames| <= |c.settled|
    && (forall k :: 0 <= k < |frames| ==> c.settled[k].reply == ReplyTo(frames[k]))
    && (match c.failure
        case None =>
          && |frames| == |c.settled|
          && ParseFrames(received, c.queued) == Prepend(frames, ParseFrames(c.buffer, |c.pending|))
        case Some(why) =>
          && c.pending == [] && c.buffer == []
          && frames <= ParseFrames(received, c.queued).frames
          && (forall k :: |frames| <= k < |c.settled| ==> c.settled[k].reply == Rejected(why)))
  }

  lemma FailTracks(c: Conn, received: seq<byte>, frames: seq<Frame>, why: Failure)
    requires Tracks(c, received, frames)
    ensures Tracks(Fail(c, why), received, frames)
  {
  }

  lemma MoreRequestsTrack(c: Conn, received: seq<byte>, frames: seq<Frame>)
    requires Tracks(c, received, frames) && c.failure.None?
    ensures Tracks(c.(pending := c.pending + [c.queued], queued := c.queued + 1), received, frames)
  {
    hide ParseFrames;
    var n := |c.pending|;
    var q := ParseFrames(c.buffer, n);
    ParseResumes(received, [], c.queued, 1);
    ParseResumes(c.buffer, [], n, 1);
    assert received + [] == received && c.buffer + [] == c.buffer && q.rest + [] == q.rest;
    if q.badLength.None? {
      PrependAssociates(frames, q.frames, ParseFrames(q.rest, n - |q.frames| + 1));
    }
  }

  lemma MoreBytesTrack(c: Conn, received: seq<byte>, frames: seq<Frame>, chunk: seq<byte>)
    requires Tracks(c, received, frames) && c.failure.None?
    ensures ParseFrames(received + chunk, c.queued) ==
            Prepend(frames, ParseFrames(c.buffer + chunk, |c.pending|))
  {
    hide ParseFrames;
    var n := |c.pending|;
    var q := ParseFrames(c.buffer, n);
    ParseResumes(received, chunk, c.queued, 0);
    ParseResumes(c.buffer, chunk, n, 0);
    if q.badLength.None? {
      PrependAssociates(frames, q.frames, ParseFrames(q.rest + chunk, n - |q.frames|));
    }
  }

  lemma SettleKeepsOrder(c: Conn, frames: seq<Frame>, more: seq<Frame>, rest: seq<byte>)
    requires QueueOrder(c) && |frames| == |c.settled| && |more| <= |c.pending|
    requires forall k :: 0 <= k < |frames| ==> c.settled[k].reply == ReplyTo(frames[k])
    ensures
      var served := Settle(c, more, rest);
      && QueueOrder(served)
      && |served.settled| == |frames + more|
      && (forall k :: 0 <= k < |frames + more| ==> served.settled[k].reply == ReplyTo((frames + more)[k]))
  {
    hide ReplyTo;
  }

  /** Parsing what one parse left over cuts nothing more. */
  lemma ParseDrains(s: seq<byte>, n: nat)
    requires ParseFrames(s, n).badLength.None?
    ensures
      var p := ParseFrames(s, n);
      ParseFrames(p.rest, n - |p.frames|) == Parsed([], None, p.rest)
  {
    hide ParseFrames;
    var p := ParseFrames(s, n);
    ParseResumes(s, [], n, 0);
    assert s + [] == s && p.rest + [] == p.rest;
    assert p.frames == p.frames + ParseFrames(p.rest, n - |p.frames|).frames;
  }

  /** A data event leaves the connection fully drained: every frame the parser
      can cut for the queued requests has been handed out. */
  lemma DataDrains(c: Conn, received: seq<byte>, frames: seq<Frame>, chunk: seq<byte>)
    requires Tracks(c, received, frames) && c.failure.None? && chunk != []
    ensures
      var p := ParseFrames(received + chunk, c.queued);
      var after := OnData(c, chunk);
      && Tracks(after, received + chunk, p.frames)
      && (after.failure == if p.badLength.Some? then Some(InvalidLength(p.badLength.value)) else None)
      && (p.badLength.None? ==> after.buffer == p.rest)
  {
    hide ParseFrames, Settlements, ReplyTo;
    MoreBytesTrack(c, received, frames, chunk);
    var n := |c.pending|;
    var q := ParseFrames(c.buffer + chunk, n);
    var p := ParseFrames(received + chunk, c.queued);
    assert p.frames == frames + q.frames;
    SettleKeepsOrder(c, frames, q.frames, q.rest);
    if q.badLength.None? { ParseDrains(c.buffer + chunk, n); }
  }

  lemma SendTracks(c: Conn, received: seq<byte>, frames: seq<Frame>, kind: byte, payload: seq<byte>,
                   writeError: Option<nat>)
    requires Tracks(c, received, frames) && c.failure.None?
    ensures Tracks(Send(c, kind, payload, writeError), received, frames)
  {
    hide ParseFrames, FrameBytes;
    MoreRequestsTrack(c, received, frames);
    var waiting := c.(nextCorr := c.nextCorr + 1, pending := c.pending + [c.queued], queued := c.queued + 1);
    if writeError.Some? { FailTracks(waiting, received, frames, SocketError(writeError.value)); }
  }

  lemma StepTracks(c: Conn, received: seq<byte>, frames: seq<Frame>, e: Event) returns (frames': seq<Frame>)
    requires Tracks(c, received, frames)
    ensures Tracks(Step(c, e), received + (if e.Data? then e.chunk else []), frames')
  {
    hide ParseFrames, FrameBytes, Send, OnData, Fail;
    frames' := frames;
    assert received + [] == received;
    if c.failure.Some? {
      FailureIsFinal(c, [e]);
      assert Run(c, [e]) == Step(c, e);
      if e.Data? { ParseResumes(received, e.chunk, c.queued, 0); }
    } else {
      match e
      case Data(chunk) =>
        if chunk == [] {
          NoData(c);
        } else {
          DataDrains(c, received, frames, chunk);
          frames' := ParseFrames(received + chunk, c.queued).frames;
        }
      case Request(kind, payload, writeError) => SendTracks(c, received, frames, kind, payload, writeError);
      case PeerError(code) => FailTracks(c, received, frames, SocketError(code));
      case PeerClosed => FailTracks(c, received, frames, ConnectionClosed);
      case LocalClose(writeError) =>
        FailTracks(c, received, frames, ConnectionClosed);
        var bye := FrameBytes(MSG_BYE, c.nextCorr, []);
        if bye.Ok? {
          FailTracks(c.(sent := c.sent + [bye.value], nextCorr := c.nextCorr + 1), received, frames, ConnectionClosed);
        }
    }
  }

  /** Over every run of sends, data, errors and closes, request k is settled at
      most once, in queue order, and only by frame k of the byte stream as the
      pure parser cuts it, or by the failure that ended the connection. */
  lemma {:induction false} EveryRunTracks(events: seq<Event>)
    ensures exists frames :: Tracks(Run(FRESH, events), Received(events), frames)
  {
    assert Tracks(FRESH, [], []);
    RunTracksFrom(FRESH, [], [], events);
    assert [] + Received(events) == Received(events);
  }

  lemma {:induction false} RunTracksFrom(c: Conn, received: seq<byte>, frames: seq<Frame>, events: seq<Event>)
    requires Tracks(c, received, frames)
    ensures exists frames' :: Tracks(Run(c, events), received + Received(events), frames')
    decreases |events|
  {
    hide Tracks, Step;
    if events == [] {
      assert received + Received(events) == received;
      assert Tracks(Run(c, events), received + Received(events), frames);
    } else {
      var e := events[0];
      var bytes := if e.Data? then e.chunk else [];
      var frames' := StepTracks(c, received, frames, e);
      RunTracksFrom(Step(c, e), received + bytes, frames', events[1..]);
      assert Run(c, events) == Run(Step(c, e), events[1..]);
      ReceivedSplits(received, events);
    }
  }

  lemma Associates(a: seq<byte>, b: seq<byte>, c: seq<byte>)
    ensures a + (b + c) == a + b + c
  {
  }

  lemma ReceivedSplits(received: seq<byte>, events: seq<Event>)
    requires events != []
    ensures
      var bytes := if events[0].Data? then events[0].chunk else [];
      received + Received(events) == received + bytes + Received(events[1..])
  {
    var e := events[0];
    Associates(received, if e.Data? then e.chunk else [], Received(events[1..]));
  }

  // ---------------------------------------------------------- what replies say

  /** A frame's kind and payload as the caller sees them: an error frame (0x03) or
      a failed authentication (0x15) rejects with the payload, any other resolves
      with kind and payload. */
  predicate Tells(reply: Reply, kind: byte, payload: seq<byte>) {
    if kind == 0x03 || kind == 0x15 then reply.EngineError? && reply.payload == payload
    else reply.Resolved? && reply.frame.kind == kind && reply.frame.payload == payload
  }

  lemma ReplyTells(f: Frame)
    ensures Tells(ReplyTo(f), f.kind, f.payload)
  {
  }

  /** Over every run, each settled request says what its frame said, and those no
      frame answered say why the connection ended. */
  lemma EveryReplyTells(events: seq<Event>) returns (frames: seq<Frame>)
    ensures
      var c := Run(FRESH, events);
      && |frames| <= |c.settled| && frames <= ParseFrames(Received(events), c.queued).frames
      && (forall k :: 0 <= k < |frames| ==>
            c.settled[k].request == k && Tells(c.settled[k].reply, frames[k].kind, frames[k].payload))
      && (|frames| < |c.settled| ==> c.failure.Some?)
      && (forall k :: |frames| <= k < |c.settled| ==>
            c.settled[k].request == k && c.settled[k].reply == Rejected(c.failure.value))
  {
    hide ParseFrames, Run, ReplyTo;
    EveryRunTracks(events);
    var c := Run(FRESH, events);
    frames :| Tracks(c, Received(events), frames);
    forall k | 0 <= k < |frames| ensures Tells(c.settled[k].reply, frames[k].kind, frames[k].payload) {
      ReplyTells(frames[k]);
    }
  }

  /** What a send does to a connection that is up.  An unencodable request is only
      numbered.  Otherwise it is queued, and either its frame is written or the
      failed write ends the connection and rejects it with everything pending. */
  lemma SendExactly(c: Conn, kind: byte, payload: seq<byte>, writeError: Option<nat>)
    requires c.failure.None? && QueueOrder(c)
    ensures
      var after := Send(c, kind, payload, writeError);
      && after.nextCorr == c.nextCorr + 1
      && (16 + |payload| > 0x100_0000 || c.nextCorr >= 0x1_0000_0000_0000_0000 ==>
            after == c.(nextCorr := c.nextCorr + 1))
      && (16 + |payload| <= 0x100_0000 && c.nextCorr < 0x1_0000_0000_0000_0000 ==>
            && after.queued == c.queued + 1
            && (writeError.None? ==>
                  && after.failure.None? && after.pending == c.pending + [c.queued] && after.settled == c.settled
                  && |after.sent| == |c.sent| + 1 && after.sent[..|c.sent|] == c.sent
                  && DecodeFrame(after.sent[|c.sent|]) ==
                     Some((WireFrame(kind, 0, 0, c.nextCorr, payload), 16 + |payload|)))
            && (writeError.Some? ==> after.sent == c.sent && EndsWith(c, after, SocketError(writeError.value))))
  {
    hide DecodeFrame;
    assert Pow256(8) == 0x1_0000_0000_0000_0000;
    var frame := FrameBytes(kind, c.nextCorr, payload);
    if frame.Ok? {
      ServerReadsFrame(kind, c.nextCorr, payload, []);
      assert frame.value + [] == frame.value;
    }
  }

  /** The connection ended for this reason: every request queued by then that had
      no reply is rejected with it, in order. */
  predicate EndsWith(before: Conn, after: Conn, why: Failure) {
    && after.failure == Some(why) && after.pending == [] && after.buffer == []
    && |after.settled| == after.queued && before.settled <= after.settled
    && forall k :: |before.settled| <= k < |after.settled| ==>
         after.settled[k].request == k && after.settled[k].reply == Rejected(why)
  }

  /** A socket that closes or errs ends a connection that is up, for that reason. */
  lemma PeerEnds(c: Conn, code: nat)
    requires c.failure.None? && QueueOrder(c)
    ensures EndsWith(c, Step(c, PeerClosed), ConnectionClosed) && Step(c, PeerClosed).sent == c.sent
    ensures EndsWith(c, Step(c, PeerError(code)), SocketError(code)) && Step(c, PeerError(code)).sent == c.sent
  {
  }

  /** Closing a connection that is up ends it as closed, after a goodbye (0x16,
      no payload) under the next correlation id if it can be encoded and written. */
  lemma CloseExactly(c: Conn, writeError: Option<nat>)
    requires c.failure.None? && QueueOrder(c)
    ensures
      var after := Close(c, writeError);
      && EndsWith(c, after, ConnectionClosed) && after.queued == c.queued
      && (if c.nextCorr < 0x1_0000_0000_0000_0000 && writeError.None? then
            && |after.sent| == |c.sent| + 1 && after.sent[..|c.sent|] == c.sent
            && DecodeFrame(after.sent[|c.sent|]) == Some((WireFrame(0x16, 0, 0, c.nextCorr, []), 16))
          else after.sent == c.sent)
  {
    hide DecodeFrame;
    assert Pow256(8) == 0x1_0000_0000_0000_0000;
    var bye := FrameBytes(MSG_BYE, c.nextCorr, []);
    if bye.Ok? {
      ServerReadsFrame(MSG_BYE, c.nextCorr, [], []);
      assert bye.value + [] == bye.value;
    }
  }

  // ----------------------------------------------------- encoded streams

  datatype Message = Message(kind: byte, corr: nat, payload: seq<byte>)

  predicate Encodable(m: Message) {
    FrameBytes(m.kind, m.corr, m.payload).Ok?
  }

  function Wire(m: Message): seq<byte>
    requires Encodable(m)
  {
    FrameBytes(m.kind, m.corr, m.payload).value
  }

  /** The peer's output: the messages' frames back to back. */
  function EncodeAll(messages: seq<Message>): seq<byte>
    requires forall i :: 0 <= i < |messages| ==> Encodable(messages[i])
  {
    if messages == [] then []
    else assert Encodable(messages[0]); Wire(messages[0]) + EncodeAll(messages[1..])
  }

  function FramesOf(messages: seq<Message>): (frames: seq<Frame>)
    ensures |frames| == |messages|
  {
    seq(|messages|, i requires 0 <= i < |messages| => Frame(messages[i].kind, messages[i].payload))
  }

  lemma ParseNothing(n: nat)
    ensures ParseFrames([], n) == Parsed([], None, [])
  {
  }

  lemma {:induction false} ParseAllEncoded(messages: seq<Message>, n: nat)
    requires forall i :: 0 <= i < |messages| ==> Encodable(messages[i])
    requires |messages| <= n
    ensures ParseFrames(EncodeAll(messages), n) == Parsed(FramesOf(messages), None, [])
    decreases |messages|
  {
    hide FrameBytes, FirstFrame;
    if messages == [] {
      ParseNothing(n);
    } else {
      var m := messages[0];
      assert Encodable(m);
      ParseEncoded(m.kind, m.corr, m.payload, EncodeAll(messages[1..]), n);
      ParseAllEncoded(messages[1..], n - 1);
      assert FramesOf(messages) == [Frame(m.kind, m.payload)] + FramesOf(messages[1..]);
    }
  }

  /** End to end: frames the peer encoded, sent back to back and re-cut into any
      chunks, settle the oldest pending requests one by one and leave nothing
      buffered. */
  lemma EncodedStreamIsDelivered(c: Conn, messages: seq<Message>, chunks: seq<seq<byte>>)
    requires c.failure.None? && c.buffer == []
    requires forall i :: 0 <= i < |messages| ==> Encodable(messages[i])
    requires |messages| <= |c.pending|
    requires Concat(chunks) == EncodeAll(messages)
    ensures Run(c, DataEvents(chunks)) == Settle(c, FramesOf(messages), [])
  {
    ChunkingIndependence(c, chunks);
    ParseAllEncoded(messages, |c.pending|);
    assert c.buffer + Concat(chunks) == EncodeAll(messages);
    if messages == [] {
      assert Settle(c, [], []) == c by {
        assert c.settled + Settlements(c.pending, []) == c.settled;
        assert c.pending[0..] == c.pending;
      }
    } else {
      assert EncodeAll(messages) != [];
    }
  }

  /** And each of them says what its message said. */
  lemma EncodedStreamIsToldCorrectly(c: Conn, messages: seq<Message>, chunks: seq<seq<byte>>, k: nat)
    requires c.failure.None? && c.buffer == []
    requires forall i :: 0 <= i < |messages| ==> Encodable(messages[i])
    requires |messages| <= |c.pending| && k < |messages|
    requires Concat(chunks) == EncodeAll(messages)
    ensures
      var after := Run(c, DataEvents(chunks));
      && after.failure.None? && after.buffer == [] && after.pending == c.pending[|messages|..]
      && |after.settled| == |c.settled| + |messages|
      && after.settled[|c.settled| + k].request == c.pending[k]
      && Tells(after.settled[|c.settled| + k].reply, messages[k].kind, messages[k].payload)
  {
    hide Run, FrameBytes, EncodeAll, ReplyTo;
    EncodedStreamIsDelivered(c, messages, chunks);
    ReplyTells(FramesOf(messages)[k]);
  }

  // ------------------------------------------------------- what is written

  /** A frame as the server decodes it, with its whole header. */
  datatype WireFrame = WireFrame(kind: byte, flags: byte, streamId: nat, corr: nat, payload: seq<byte>)

  /** The server's decoder for uncompressed frames, with the frame's size. */
  function DecodeFrame(s: seq<byte>): Option<(WireFrame, nat)> {
    if |s| < FRAME_HEADER_SIZE then None
    else
      var length := FromLittleEndian(s[..4]);
      if !ReadableLength(length) || |s| < length then None
      else
        Some((WireFrame(s[4], s[5], FromLittleEndian(s[6..8]), FromLittleEndian(s[8..16]),
                        s[FRAME_HEADER_SIZE..length]), length))
  }

  /** The server reads back every field of a frame the client encodes. */
  lemma ServerReadsFrame(kind: byte, corr: nat, payload: seq<byte>, t: seq<byte>)
    requires FrameBytes(kind, corr, payload).Ok?
    ensures
      var b := FrameBytes(kind, corr, payload).value;
      DecodeFrame(b + t) == Some((WireFrame(kind, 0, 0, corr, payload), |b|))
  {
    hide LittleEndian, FromLittleEndian;
    var s := FrameBytes(kind, corr, payload).value + t;
    var size := FRAME_HEADER_SIZE + |payload|;
    assert Pow256(4) == 4294967296;
    LittleEndianRoundTrip(size, 4);
    LittleEndianRoundTrip(0, 2);
    LittleEndianRoundTrip(corr, 8);
    assert s[..4] == LittleEndian(size, 4);
    assert s[6..8] == LittleEndian(0, 2);
    assert s[8..16] == LittleEndian(corr, 8);
    assert s[FRAME_HEADER_SIZE..size] == payload;
  }

  /** The requests a run makes while the connection is up, encoded under
      consecutive correlation ids. */
  function Requests(events: seq<Event>, corr: nat): seq<seq<byte>> {
    if events == [] then []
    else if !events[0].Request? then Requests(events[1..], corr)
    else
      var frame := FrameBytes(events[0].kind, corr, events[0].payload);
      (if frame.Ok? then [frame.value] else []) + Requests(events[1..], corr + 1)
  }

  /** As long as a connection is up, its socket has carried exactly one frame per
      queued request, in queue order. */
  lemma {:induction false} EveryRequestIsWritten(c: Conn, events: seq<Event>)
    requires Run(c, events).failure.None? && |c.sent| == c.queued
    ensures
      var after := Run(c, events);
      after.sent == c.sent + Requests(events, c.nextCorr) && |after.sent| == after.queued
    decreases |events|
  {
    hide FrameBytes, OnData, Fail;
    if c.failure.Some? { FailureIsFinal(c, events); }
    if events == [] {
      assert c.sent + [] == c.sent;
    } else {
      var e := events[0];
      var next := Step(c, e);
      if next.failure.Some? { FailureIsFinal(next, events[1..]); }
      StepWrites(c, e);
      EveryRequestIsWritten(next, events[1..]);
    }
  }

  lemma StepWrites(c: Conn, e: Event)
    requires c.failure.None? && Step(c, e).failure.None?
    ensures
      var next := Step(c, e);
      if e.Request? then
        var frame := FrameBytes(e.kind, c.nextCorr, e.payload);
        next.nextCorr == c.nextCorr + 1 &&
        (if frame.Ok? then next.sent == c.sent + [frame.value] && next.queued == c.queued + 1
         else next.sent == c.sent && next.queued == c.queued)
      else next.sent == c.sent && next.queued == c.queued && next.nextCorr == c.nextCorr
  {
    hide FrameBytes, ParseFrames;
  }
}
