/** The connection's receive machine as it runs: a queue of chunks read through
    a cursor, a cached frame header, lazy compaction, and FIFO request pairing.
    Every public method refines the corresponding step of `FrameStream`. */
module Connection {
  import opened Prelude
  import FS = FrameStream

  /** A slot of the chunk array; a fully read chunk's slot is cleared. */
  type Slot = Option<seq<byte>>

  // ------------------------------------------------------------ chunk queue

  ghost function Flatten(slots: seq<Slot>): seq<byte> {
    if slots == [] then []
    else (if slots[0].Some? then slots[0].value else []) + Flatten(slots[1..])
  }

  /** The cursor stands on an unread byte, or past the last slot. */
  ghost predicate CursorOk(chunks: seq<Slot>, index: nat, offset: nat) {
    && index <= |chunks|
    && (forall i :: index <= i < |chunks| ==> chunks[i].Some? && |chunks[i].value| > 0)
    && (if index == |chunks| then offset == 0 else offset < |chunks[index].value|)
  }

  /** The bytes from the cursor on. */
  ghost function Unread(chunks: seq<Slot>, index: nat, offset: nat): seq<byte>
    requires CursorOk(chunks, index, offset)
  {
    if index == |chunks| then []
    else chunks[index].value[offset..] + Flatten(chunks[index + 1..])
  }

  lemma UnreadInside(chunks: seq<Slot>, index: nat, offset: nat)
    requires CursorOk(chunks, index, offset)
    ensures index < |chunks| <==> Unread(chunks, index, offset) != []
  {
  }

  lemma UnreadFromSlot(chunks: seq<Slot>, index: nat)
    requires CursorOk(chunks, index, 0)
    ensures Unread(chunks, index, 0) == Flatten(chunks[index..])
  {
    if index < |chunks| {
      assert chunks[index..][1..] == chunks[index + 1..];
      assert chunks[index].value[0..] == chunks[index].value;
    }
  }

  /** Reading count bytes from the current chunk. */
  lemma ReadWithinChunk(chunks: seq<Slot>, index: nat, offset: nat, count: nat)
    requires CursorOk(chunks, index, offset) && index < |chunks|
    requires offset + count <= |chunks[index].value|
    ensures
      var chunk := chunks[index].value;
      var unread := Unread(chunks, index, offset);
      && count <= |unread|
      && chunk[offset..offset + count] == unread[..count]
      && (if offset + count < |chunk|
          then CursorOk(chunks, index, offset + count) && Unread(chunks, index, offset + count) == unread[count..]
          else CursorOk(chunks, index + 1, 0) && Unread(chunks, index + 1, 0) == unread[count..])
  {
    var chunk := chunks[index].value;
    var tail := Flatten(chunks[index + 1..]);
    assert (chunk[offset..] + tail)[..count] == chunk[offset..offset + count];
    if offset + count < |chunk| {
      assert (chunk[offset..] + tail)[count..] == chunk[offset + count..] + tail;
    } else {
      assert (chunk[offset..] + tail)[count..] == tail;
      UnreadFromSlot(chunks, index + 1);
    }
  }

  lemma ClearReadSlot(chunks: seq<Slot>, index: nat)
    requires CursorOk(chunks, index + 1, 0)
    ensures CursorOk(chunks[index := None], index + 1, 0)
    ensures Unread(chunks[index := None], index + 1, 0) == Unread(chunks, index + 1, 0)
  {
    assert chunks[index := None][index + 1..] == chunks[index + 1..];
    UnreadFromSlot(chunks, index + 1);
    UnreadFromSlot(chunks[index := None], index + 1);
  }

  lemma CompactKeepsUnread(chunks: seq<Slot>, index: nat, offset: nat)
    requires CursorOk(chunks, index, offset)
    ensures CursorOk(chunks[index..], 0, offset)
    ensures Unread(chunks[index..], 0, offset) == Unread(chunks, index, offset)
  {
    if index < |chunks| {
      assert chunks[index..][1..] == chunks[index + 1..];
    }
  }

  lemma {:induction false} FlattenAppend(slots: seq<Slot>, chunk: seq<byte>)
    ensures Flatten(slots + [Some(chunk)]) == Flatten(slots) + chunk
    decreases |slots|
  {
    if slots == [] {
      assert Flatten([Some(chunk)]) == chunk + Flatten([]);
    } else {
      assert (slots + [Some(chunk)])[1..] == slots[1..] + [Some(chunk)];
      FlattenAppend(slots[1..], chunk);
    }
  }

  lemma PushExtendsUnread(chunks: seq<Slot>, index: nat, offset: nat, chunk: seq<byte>)
    requires CursorOk(chunks, index, offset) && chunk != []
    ensures CursorOk(chunks + [Some(chunk)], index, offset)
    ensures Unread(chunks + [Some(chunk)], index, offset) == Unread(chunks, index, offset) + chunk
  {
    if index < |chunks| {
      assert (chunks + [Some(chunk)])[index + 1..] == chunks[index + 1..] + [Some(chunk)];
      FlattenAppend(chunks[index + 1..], chunk);
    } else {
      assert (chunks + [Some(chunk)])[index + 1..] == [];
      assert chunk[0..] == chunk;
    }
  }

  // ------------------------------------------------------------------ costs

  /** Frames handed to requests so far. */
  ghost function Delivered(settled: seq<FS.Settlement>): nat {
    if settled == [] then 0
    else Delivered(settled[..|settled| - 1]) + (if settled[|settled| - 1].reply.Rejected? then 0 else 1)
  }

  ghost function PayloadSize(reply: FS.Reply): nat {
    match reply
    case Resolved(frame) => |frame.payload|
    case EngineError(payload) => |payload|
    case Rejected(_) => 0
  }

  /** Payload bytes handed to requests so far. */
  ghost function PayloadBytes(settled: seq<FS.Settlement>): nat {
    if settled == [] then 0
    else PayloadBytes(settled[..|settled| - 1]) + PayloadSize(settled[|settled| - 1].reply)
  }

  lemma CostsAppend(settled: seq<FS.Settlement>, last: FS.Settlement)
    ensures Delivered(settled + [last]) == Delivered(settled) + (if last.reply.Rejected? then 0 else 1)
    ensures PayloadBytes(settled + [last]) == PayloadBytes(settled) + PayloadSize(last.reply)
  {
    assert (settled + [last])[..|settled|] == settled;
  }

  datatype SendOutcome =
    | Queued(request: nat)
    | RejectedAtOnce(why: FS.Failure)
    | NotEncodable(error: FS.EncodeError)

  // ---------------------------------------------------------------- machine

  class RedDBConnection {
    var pending: seq<nat>
    var chunks: seq<Slot>
    var chunkIndex: nat
    var chunkOffset: nat
    var bufferedBytes: nat
    var frameLength: nat
    var frameType: byte
    var failure: Option<FS.Failure>
    var nextCorr: nat

    // What the connection has done: requests queued, promises settled in
    // order, frames written to the socket.
    var queued: nat
    var settled: seq<FS.Settlement>
    var sent: seq<seq<byte>>

    // Work done so far.
    ghost var chunksReceived: nat
    ghost var bytesReceived: nat
    ghost var slotsCopied: nat
    ghost var bytesCopied: nat
    ghost var headersRead: nat

    ghost predicate QueueValid()
      reads this`chunks, this`chunkIndex, this`chunkOffset, this`bufferedBytes, this`slotsCopied, this`chunksReceived
    {
      && CursorOk(chunks, chunkIndex, chunkOffset)
      && (forall i :: 0 <= i < chunkIndex ==> chunks[i].None?)
      && bufferedBytes == |Unread(chunks, chunkIndex, chunkOffset)|
      // Compaction keeps cleared slots below half of the array, and over the
      // whole run it copies no more slots than chunks have arrived.
      && (chunkIndex == 0 || 2 * chunkIndex < |chunks|)
      && slotsCopied + |chunks| <= chunksReceived
    }

    ghost function Buffer(): seq<byte>
      requires QueueValid()
      reads this`chunks, this`chunkIndex, this`chunkOffset, this`bufferedBytes, this`slotsCopied, this`chunksReceived
    {
      Unread(chunks, chunkIndex, chunkOffset)
    }

    /** A cached header is the header at the cursor. */
    ghost predicate CacheValid()
      requires QueueValid()
      reads this`chunks, this`chunkIndex, this`chunkOffset, this`bufferedBytes, this`slotsCopied, this`chunksReceived,
            this`frameLength, this`frameType
    {
      frameLength != 0 ==>
        && |Buffer()| >= FS.FRAME_HEADER_SIZE
        && FS.ReadableLength(frameLength)
        && frameLength == FromLittleEndian(Buffer()[..4])
        && frameType == Buffer()[4]
    }

    /** Bytes are copied once per payload byte, plus five per header read, and
        a header is read at most once per frame (one frame may be in progress). */
    ghost predicate CostValid(inProgress: nat)
      reads this`settled, this`bytesCopied, this`headersRead
    {
      && bytesCopied <= PayloadBytes(settled) + 5 * headersRead
      && headersRead <= Delivered(settled) + inProgress
    }

    /** Every byte received is delivered payload, header, buffered or dropped. */
    ghost predicate Accounted(taken: nat)
      requires QueueValid()
      reads this`chunks, this`chunkIndex, this`chunkOffset, this`bufferedBytes, this`slotsCopied, this`chunksReceived,
            this`settled, this`bytesReceived
    {
      PayloadBytes(settled) + FS.FRAME_HEADER_SIZE * Delivered(settled) + taken + |Buffer()| <= bytesReceived
    }

    ghost predicate Valid()
      reads this
    {
      && QueueValid()
      && CacheValid()
      && Accounted(0)
      && CostValid(if frameLength != 0 || failure.Some? then 1 else 0)
    }

    /** The connection as a value. */
    ghost function Abs(): FS.Conn
      requires QueueValid()
      reads this
    {
      FS.Conn(Buffer(), pending, settled, failure, queued, nextCorr, sent)
    }

    /** What the receive path has cost so far, in terms of what has arrived:
        slots copied by compaction and bytes copied out of chunks are linear in
        the chunks and bytes received, and cleared slots stay below half. */
    lemma CostIsLinear()
      requires Valid()
      ensures slotsCopied <= chunksReceived
      ensures bytesCopied <= bytesReceived + 5
      ensures chunkIndex == 0 || 2 * chunkIndex < |chunks|
    {
    }

    constructor ()
      ensures Valid()
      ensures Abs() == FS.FRESH
    {
      pending, chunks, chunkIndex, chunkOffset, bufferedBytes := [], [], 0, 0, 0;
      frameLength, frameType, failure, nextCorr := 0, 0, None, 1;
      queued, settled, sent := 0, [], [];
      chunksReceived, bytesReceived, slotsCopied, bytesCopied, headersRead := 0, 0, 0, 0, 0;
    }

    method OnData(chunk: seq<byte>)
      requires Valid()
      modifies this
      ensures Valid()
      ensures Abs() == FS.OnData(old(Abs()), chunk)
    {
      hide FS.ParseFrames, FS.Settle, FS.Fail, QueueValid, CacheValid, CostValid, Accounted;
      if failure.Some? || chunk == [] { return; }
      Push(chunk);
      SettleIgnoresBuffer(old(Abs()), Buffer());
      TryResolve();
    }

    method Push(chunk: seq<byte>)
      requires Valid() && chunk != []
      modifies this`chunks, this`bufferedBytes, this`chunksReceived, this`bytesReceived
      ensures Valid()
      ensures Buffer() == old(Buffer()) + chunk
    {
      hide Flatten, Unread, FromLittleEndian, CostValid, PayloadBytes, Delivered;
      PushExtendsUnread(chunks, chunkIndex, chunkOffset, chunk);
      ghost var before := Buffer();
      chunks := chunks + [Some(chunk)];
      bufferedBytes := bufferedBytes + |chunk|;
      chunksReceived, bytesReceived := chunksReceived + 1, bytesReceived + |chunk|;
      if frameLength != 0 { assert (before + chunk)[..4] == before[..4]; }
    }

    method OnClose()
      requires Valid()
      modifies this
      ensures Valid()
      ensures Abs() == FS.Fail(old(Abs()), FS.ConnectionClosed)
    {
      Fail(FS.ConnectionClosed);
    }

    method OnError(code: nat)
      requires Valid()
      modifies this
      ensures Valid()
      ensures Abs() == FS.Fail(old(Abs()), FS.SocketError(code))
    {
      Fail(FS.SocketError(code));
    }

    /** Cuts frames while a header is buffered and a request waits; the outcome
        is the pure parser's on the buffered bytes. */
    method TryResolve()
      requires Valid() && failure.None?
      modifies this
      ensures Valid()
      ensures
        var p := FS.ParseFrames(old(Buffer()), |old(pending)|);
        var served := FS.Settle(old(Abs()), p.frames, p.rest);
        Abs() == if p.badLength.Some? then FS.Fail(served, FS.InvalidLength(p.badLength.value)) else served
    {
      hide FS.ParseFrames, FS.FirstFrame, FS.Fail, QueueValid, CacheValid, CostValid, Accounted;
      ghost var start := Abs();
      ghost var all := FS.ParseFrames(start.buffer, |pending|);
      ghost var frames: seq<FS.Frame> := [];
      NothingServed(start);
      while bufferedBytes >= FS.FRAME_HEADER_SIZE && |pending| > 0
        invariant Valid() && failure.None?
        invariant |frames| + |pending| == |start.pending|
        invariant Abs() == FS.Settle(start, frames, Buffer())
        invariant all == FS.Prepend(frames, FS.ParseFrames(Buffer(), |pending|))
        decreases |pending|
      {
        ghost var buffer := Buffer();
        ParseOne(start, frames, buffer, |pending|);
        var again := ResolveOne();
        if !again { return; }
        frames := frames + [FS.FirstFrame(buffer).frame];
      }
      if |pending| > 0 { HeaderMissing(); }
      ParseOne(start, frames, Buffer(), |pending|);
    }

    lemma HeaderMissing()
      requires QueueValid() && bufferedBytes < FS.FRAME_HEADER_SIZE
      ensures FS.FirstFrame(Buffer()).Incomplete?
    {
    }

    /** One turn of the loop: reads the header unless it is cached, waits for
        the rest of the frame, and settles the oldest request with it. */
    method ResolveOne() returns (again: bool)
      requires Valid() && failure.None?
      requires bufferedBytes >= FS.FRAME_HEADER_SIZE && |pending| > 0
      modifies this
      ensures Valid()
      ensures
        match FS.FirstFrame(old(Buffer()))
        case Incomplete => !again && Abs() == old(Abs())
        case Unreadable(length) => !again && Abs() == FS.Fail(old(Abs()), FS.InvalidLength(length))
        case Whole(frame, size) => again && Abs() == FS.Settle(old(Abs()), [frame], old(Buffer())[size..])
    {
      hide CursorOk, Unread, FromLittleEndian, CostValid, PayloadBytes, Delivered, FS.Fail;
      if frameLength == 0 {
        var thrown := ReadHeader();
        if thrown.Some? {
          Fail(FS.InvalidLength(thrown.value));
          return false;
        }
      }
      if bufferedBytes < frameLength { return false; }
      var msgType, payload := TakeFrame();
      OneSettlement(pending, FS.Frame(msgType, payload));
      Answer(msgType, payload);
      return true;
    }

    /** Consumes the cached frame: its header, then its payload. */
    method TakeFrame() returns (msgType: byte, payload: seq<byte>)
      requires QueueValid() && CacheValid() && CostValid(1) && Accounted(0)
      requires 0 != frameLength <= bufferedBytes
      modifies this`chunks, this`chunkIndex, this`chunkOffset, this`bufferedBytes, this`frameLength,
               this`slotsCopied, this`bytesCopied
      ensures QueueValid() && frameLength == 0
      ensures FS.FirstFrame(old(Buffer())) == FS.Whole(FS.Frame(msgType, payload), old(frameLength))
      ensures Buffer() == old(Buffer())[old(frameLength)..]
      ensures bytesCopied <= old(bytesCopied) + |payload|
      ensures bytesCopied <= PayloadBytes(settled) + |payload| + 5 * headersRead
      ensures headersRead <= Delivered(settled) + 1
      ensures Accounted(FS.FRAME_HEADER_SIZE + |payload|)
    {
      msgType := frameType;
      Consume(FS.FRAME_HEADER_SIZE, null);
      var output := new byte[frameLength - FS.FRAME_HEADER_SIZE];
      Consume(output.Length, output);
      frameLength := 0;
      payload := output[..];
      assert payload == old(Buffer())[FS.FRAME_HEADER_SIZE..old(frameLength)];
      assert Buffer() == old(Buffer())[old(frameLength)..];
    }

    /** Settles the oldest pending request with a frame. */
    method Answer(msgType: byte, payload: seq<byte>)
      requires QueueValid() && frameLength == 0 && |pending| > 0
      requires bytesCopied <= PayloadBytes(settled) + |payload| + 5 * headersRead
      requires headersRead <= Delivered(settled) + 1
      requires Accounted(FS.FRAME_HEADER_SIZE + |payload|)
      modifies this`pending, this`settled
      ensures Valid()
      ensures pending == old(pending)[1..]
      ensures settled == old(settled) +
                         [FS.Settlement(old(pending)[0], FS.ReplyTo(FS.Frame(msgType, payload)))]
    {
      hide Flatten, Unread, FromLittleEndian, PayloadBytes, Delivered;
      var request := pending[0];
      pending := pending[1..];
      var reply: FS.Reply;
      if msgType == FS.MSG_ERROR || msgType == FS.MSG_AUTH_FAIL {
        reply := FS.EngineError(payload);
      } else {
        reply := FS.Resolved(FS.Frame(msgType, payload));
      }
      CostsAppend(settled, FS.Settlement(request, reply));
      settled := settled + [FS.Settlement(request, reply)];
    }

    /** Reads length and kind at the cursor, across chunk borders if need be,
        and caches them; an unreadable length is thrown. */
    method ReadHeader() returns (thrown: Option<nat>)
      requires QueueValid() && bufferedBytes >= FS.FRAME_HEADER_SIZE
      requires CostValid(0)
      modifies this`frameLength, this`frameType, this`bytesCopied, this`headersRead
      ensures CostValid(1)
      ensures
        var length := FromLittleEndian(Buffer()[..4]);
        if FS.ReadableLength(length)
        then thrown.None? && frameLength == length && CacheValid()
        else thrown == Some(length) && frameLength == old(frameLength)
    {
      hide Unread, Flatten, FromLittleEndian, PayloadBytes, Delivered;
      ghost var buffer := Buffer();
      UnreadInside(chunks, chunkIndex, chunkOffset);
      var header := chunks[chunkIndex].value;
      var offset := chunkOffset;
      if |header| - offset >= 5 {
        ReadWithinChunk(chunks, chunkIndex, chunkOffset, 5);
      } else {
        header := CollectHeader();
        offset := 0;
        bytesCopied := bytesCopied + 5;
      }
      assert header[offset..offset + 4] == buffer[..4] && header[offset + 4] == buffer[4];
      headersRead := headersRead + 1;
      var length := FromLittleEndian(header[offset..offset + 4]);
      if length < FS.FRAME_HEADER_SIZE || length > FS.MAX_FRAME_SIZE {
        return Some(length);
      }
      frameLength := length;
      frameType := header[offset + 4];
      return None;
    }

    /** Copies the next five bytes out of as many chunks as they span. */
    method CollectHeader() returns (header: seq<byte>)
      requires QueueValid() && bufferedBytes >= 5
      ensures header == Buffer()[..5]
    {
      hide Flatten, Unread;
      var copy := new byte[5];
      var written: nat, index: nat, start: nat := 0, chunkIndex, chunkOffset;
      ghost var buffer := Buffer();
      while written < 5
        invariant written <= 5
        invariant copy[..written] == buffer[..written]
        invariant written < 5 ==> CursorOk(chunks, index, start) && Unread(chunks, index, start) == buffer[written..]
        decreases 5 - written
      {
        UnreadInside(chunks, index, start);
        var chunk := chunks[index].value;
        var count := if 5 - written < |chunk| - start then 5 - written else |chunk| - start;
        ReadWithinChunk(chunks, index, start, count);
        CopyInto(chunk[start..start + count], copy, written);
        CopyJoins(buffer, written, count);
        written := written + count;
        index, start := index + 1, 0;
      }
      header := copy[..];
    }

    /** Advances the cursor over length bytes, copying them out if asked to,
        then drops cleared slots once they fill half of the array. */
    method Consume(length: nat, output: array?<byte>)
      requires QueueValid() && length <= bufferedBytes
      requires output != null ==> output.Length == length
      modifies this`chunks, this`chunkIndex, this`chunkOffset, this`bufferedBytes,
               this`slotsCopied, this`bytesCopied, output
      ensures QueueValid()
      ensures Buffer() == old(Buffer())[length..]
      ensures output != null ==> output[..] == old(Buffer())[..length]
      ensures bytesCopied == old(bytesCopied) + (if output != null then length else 0)
    {
      hide Flatten, Unread;
      if length == 0 { return; }
      ghost var buffer := Buffer();
      var written := 0;
      while written < length
        invariant written <= length
        invariant CursorOk(chunks, chunkIndex, chunkOffset)
        invariant Unread(chunks, chunkIndex, chunkOffset) == buffer[written..]
        invariant forall i :: 0 <= i < chunkIndex ==> chunks[i].None?
        invariant |chunks| == |old(chunks)|
        invariant output != null ==> output[..written] == buffer[..written]
        invariant bytesCopied == old(bytesCopied) + (if output != null then written else 0)
        invariant bufferedBytes == |buffer| && slotsCopied == old(slotsCopied)
        decreases length - written
      {
        UnreadInside(chunks, chunkIndex, chunkOffset);
        var chunk := chunks[chunkIndex].value;
        var count := if length - written < |chunk| - chunkOffset then length - written
                     else |chunk| - chunkOffset;
        ReadWithinChunk(chunks, chunkIndex, chunkOffset, count);
        if output != null {
          CopyInto(chunk[chunkOffset..chunkOffset + count], output, written);
          CopyJoins(buffer, written, count);
          bytesCopied := bytesCopied + count;
        }
        assert buffer[written..][count..] == buffer[written + count..];
        written := written + count;
        Advance(count);
      }
      bufferedBytes := bufferedBytes - length;
      Compact();
    }

    /** Moves the cursor within one chunk, clearing its slot at the end. */
    method Advance(count: nat)
      requires CursorOk(chunks, chunkIndex, chunkOffset) && chunkIndex < |chunks|
      requires forall i :: 0 <= i < chunkIndex ==> chunks[i].None?
      requires chunkOffset + count <= |chunks[chunkIndex].value|
      modifies this`chunks, this`chunkIndex, this`chunkOffset
      ensures CursorOk(chunks, chunkIndex, chunkOffset) && |chunks| == |old(chunks)|
      ensures forall i :: 0 <= i < chunkIndex ==> chunks[i].None?
      ensures count <= |old(Unread(chunks, chunkIndex, chunkOffset))|
      ensures Unread(chunks, chunkIndex, chunkOffset) == old(Unread(chunks, chunkIndex, chunkOffset))[count..]
    {
      hide Flatten, Unread;
      ReadWithinChunk(chunks, chunkIndex, chunkOffset, count);
      chunkOffset := chunkOffset + count;
      if chunkOffset == |chunks[chunkIndex].value| {
        ClearReadSlot(chunks, chunkIndex);
        chunks := chunks[chunkIndex := None];
        chunkIndex := chunkIndex + 1;
        chunkOffset := 0;
      }
    }

    method Compact()
      requires CursorOk(chunks, chunkIndex, chunkOffset)
      requires forall i :: 0 <= i < chunkIndex ==> chunks[i].None?
      requires bufferedBytes == |Unread(chunks, chunkIndex, chunkOffset)|
      requires slotsCopied + |chunks| <= chunksReceived
      modifies this`chunks, this`chunkIndex, this`slotsCopied
      ensures QueueValid()
      ensures Buffer() == old(Unread(chunks, chunkIndex, chunkOffset))
    {
      hide Flatten, Unread;
      if chunkIndex * 2 >= |chunks| {
        CompactKeepsUnread(chunks, chunkIndex, chunkOffset);
        slotsCopied := slotsCopied + (|chunks| - chunkIndex);
        chunks := chunks[chunkIndex..];
        chunkIndex := 0;
      }
    }

    /** Fails the connection once: drops buffered bytes and rejects every
        pending request in order. */
    method Fail(why: FS.Failure)
      requires QueueValid() && Accounted(0) && (CostValid(0) || CostValid(1))
      requires failure.Some? ==> Valid()
      modifies this
      ensures Valid()
      ensures Abs() == FS.Fail(old(Abs()), why)
      ensures queued == old(queued)
    {
      hide FS.Rejections, QueueValid, Unread, PayloadBytes, Delivered;
      if failure.Some? { return; }
      failure := Some(why);
      DropBuffer();
      RejectAll(why);
    }

    method DropBuffer()
      requires QueueValid()
      modifies this`chunks, this`chunkIndex, this`chunkOffset, this`bufferedBytes, this`frameLength
      ensures QueueValid() && Buffer() == [] && frameLength == 0
    {
      chunks, chunkIndex, chunkOffset, bufferedBytes, frameLength := [], 0, 0, 0, 0;
    }

    method RejectAll(why: FS.Failure)
      modifies this`pending, this`settled
      ensures pending == []
      ensures settled == old(settled) + FS.Rejections(old(pending), why)
      ensures PayloadBytes(settled) == PayloadBytes(old(settled))
      ensures Delivered(settled) == Delivered(old(settled))
    {
      hide PayloadBytes, Delivered;
      ghost var waiting := pending;
      ghost var rejected := 0;
      while |pending| > 0
        invariant rejected <= |waiting| && pending == waiting[rejected..]
        invariant settled == old(settled) + FS.Rejections(waiting, why)[..rejected]
        invariant PayloadBytes(settled) == PayloadBytes(old(settled))
        invariant Delivered(settled) == Delivered(old(settled))
        decreases |pending|
      {
        var last := FS.Settlement(pending[0], FS.Rejected(why));
        CostsAppend(settled, last);
        assert FS.Rejections(waiting, why)[..rejected] + [last] == FS.Rejections(waiting, why)[..rejected + 1];
        settled := settled + [last];
        pending := pending[1..];
        rejected := rejected + 1;
      }
      assert FS.Rejections(waiting, why)[..rejected] == FS.Rejections(waiting, why);
    }

    /** Queues a request and writes its frame; writeError says whether the
        socket's write throws. */
    method Send(msgType: byte, payload: seq<byte>, writeError: Option<nat>) returns (outcome: SendOutcome)
      requires Valid()
      modifies this
      ensures Valid()
      ensures Abs() == FS.Send(old(Abs()), msgType, payload, writeError)
      ensures outcome.RejectedAtOnce? <==> old(failure).Some?
      ensures outcome.Queued? ==> outcome.request == old(queued) && queued == old(queued) + 1
    {
      hide FS.FrameBytes, FS.Fail, QueueValid, CacheValid, CostValid, Accounted;
      if failure.Some? { return RejectedAtOnce(failure.value); }
      var request := Number(msgType, payload);
      if request.Err? { return NotEncodable(request.error); }
      outcome := Queued(queued);
      Enqueue();
      match writeError {
        case None => sent := sent + [request.value];
        case Some(code) => Fail(FS.SocketError(code));
      }
    }

    /** Encodes a request under the next correlation id, which is used up even
        if the frame cannot be encoded. */
    method Number(msgType: byte, payload: seq<byte>) returns (request: Result<seq<byte>, FS.EncodeError>)
      modifies this`nextCorr
      ensures request == FS.FrameBytes(msgType, old(nextCorr), payload)
      ensures nextCorr == old(nextCorr) + 1
    {
      request := EncodeFrame(msgType, nextCorr, payload);
      nextCorr := nextCorr + 1;
    }

    method Enqueue()
      modifies this`pending, this`queued
      ensures pending == old(pending) + [old(queued)] && queued == old(queued) + 1
    {
      pending, queued := pending + [queued], queued + 1;
    }

    /** Says goodbye, then fails the connection whether or not that worked. */
    method Close(writeError: Option<nat>)
      requires Valid()
      modifies this
      ensures Valid()
      ensures Abs() == FS.Close(old(Abs()), writeError)
    {
      hide FS.FrameBytes, FS.Fail, QueueValid, CacheValid, CostValid, Accounted;
      if failure.Some? { return; }
      var bye := EncodeFrame(FS.MSG_BYE, nextCorr, []);
      if bye.Ok? && writeError.None? {
        sent := sent + [bye.value];
        nextCorr := nextCorr + 1;
      }
      OnClose();
    }
  }

  lemma CopyJoins(buffer: seq<byte>, written: nat, count: nat)
    requires written + count <= |buffer|
    ensures buffer[..written + count] == buffer[..written] + buffer[written..][..count]
    ensures buffer[written..][count..] == buffer[written + count..]
  {
  }

  /** Lays a frame out in a fresh buffer. */
  method EncodeFrame(kind: byte, corr: nat, payload: seq<byte>) returns (r: Result<seq<byte>, FS.EncodeError>)
    ensures r == FS.FrameBytes(kind, corr, payload)
  {
    hide LittleEndian;
    var size := FS.FRAME_HEADER_SIZE + |payload|;
    if size > FS.MAX_FRAME_SIZE { return Err(FS.FrameTooLarge(size)); }
    var out := new byte[size](i => 0);
    assert out[..0] == [];
    CopyInto(LittleEndian(size, 4), out, 0);
    CopyInto([kind, 0], out, 4);
    CopyInto(LittleEndian(0, 2), out, 6);
    if corr >= Pow256(8) { return Err(FS.CorrelationOutOfRange); }
    CopyInto(LittleEndian(corr, 8), out, 8);
    CopyInto(payload, out, FS.FRAME_HEADER_SIZE);
    assert out[..] == out[..FS.FRAME_HEADER_SIZE + |payload|];
    assert [] + LittleEndian(size, 4) == LittleEndian(size, 4);
    r := Ok(out[..]);
  }

  // ------------------------------------------------ steps of the parse loop

  lemma NothingServed(c: FS.Conn)
    ensures c == FS.Settle(c, [], c.buffer)
    ensures
      var all := FS.ParseFrames(c.buffer, |c.pending|);
      all == FS.Prepend([], all)
  {
    assert c.pending[0..] == c.pending;
    assert c.settled + FS.Settlements(c.pending, []) == c.settled;
    FS.PrependAssociates([], [], FS.ParseFrames(c.buffer, |c.pending|));
  }

  /** What the first cut of the unread bytes means for the whole parse. */
  lemma ParseOne(start: FS.Conn, frames: seq<FS.Frame>, buffer: seq<byte>, n: nat)
    requires |frames| + n == |start.pending| && start.failure.None?
    ensures
      var all := FS.Prepend(frames, FS.ParseFrames(buffer, n));
      if n == 0 then all == FS.Parsed(frames, None, buffer)
      else
        match FS.FirstFrame(buffer)
        case Incomplete => all == FS.Parsed(frames, None, buffer)
        case Unreadable(length) =>
          && all == FS.Parsed(frames, Some(length), [])
          && FS.Fail(FS.Settle(start, frames, buffer), FS.InvalidLength(length)) ==
             FS.Fail(FS.Settle(start, frames, []), FS.InvalidLength(length))
        case Whole(frame, size) =>
          && all == FS.Prepend(frames + [frame], FS.ParseFrames(buffer[size..], n - 1))
          && FS.Settle(FS.Settle(start, frames, buffer), [frame], buffer[size..]) ==
             FS.Settle(start, frames + [frame], buffer[size..])
  {
    hide FS.FirstFrame;
    assert frames + [] == frames;
    if n > 0 && FS.FirstFrame(buffer).Whole? {
      var cut := FS.FirstFrame(buffer);
      FS.PrependAssociates(frames, [cut.frame], FS.ParseFrames(buffer[cut.size..], n - 1));
      FS.SettleTwice(start, frames, [cut.frame], buffer, buffer[cut.size..]);
    }
  }

  lemma SettleIgnoresBuffer(c: FS.Conn, buffer: seq<byte>)
    ensures
      var p := FS.ParseFrames(buffer, |c.pending|);
      FS.Settle(c.(buffer := buffer), p.frames, p.rest) == FS.Settle(c, p.frames, p.rest)
  {
  }

  lemma OneSettlement(pending: seq<nat>, frame: FS.Frame)
    requires |pending| > 0
    ensures FS.Settlements(pending, [frame]) == [FS.Settlement(pending[0], FS.ReplyTo(frame))]
  {
  }
}
