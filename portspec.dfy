/**
  The meaning of the port's receive path, as pure functions: what handling one
  message does to the capability set and to the record of observable effects,
  and a byte-at-a-time reference definition of the two-state frame reader.
  The imperative reader in module FlexVdiPort is proved equal to `Feed`.
*/
module PortSpec {
  import opened Flexdp
  import opened MsgBuffers

  /** A registered "agent connected" observer: its callback and its context, by identity. */
  datatype Handler = Handler(cb: nat, data: nat)

  /** What the port does that can be seen from outside it, in order. */
  datatype Effect =
    | Write(frame: seq<byte>)                     // bytes handed to the channel's asynchronous write
    | Notified(handler: Handler)                  // an observer's callback invoked with its context
    | PrintJob(msg: seq<byte>)                    // handlePrintJob
    | PrintJobData(msg: seq<byte>)                // handlePrintJobData
    | SharePrinter(printer: string)               // flexvdiSpiceSharePrinter
    | UnsharePrinter(printer: string)             // flexvdiSpiceUnsharePrinter
    | Completed(cb: nat, userData: nat, ok: bool) // a sendMessageAsync continuation invoked
    | BufferFreed(start: MsgPtr)                  // a block released by deleteMsgBuffer

  // ---------------------------------------------------------------------------
  // Dispatch of one complete message

  /** One notification per registered observer, in list order. */
  function Notifications(hs: seq<Handler>): (r: seq<Effect>)
    ensures |r| == |hs|
    ensures forall i :: 0 <= i < |hs| ==> r[i] == Notified(hs[i])
  {
    if |hs| == 0 then [] else [Notified(hs[0])] + Notifications(hs[1..])
  }

  datatype Handled = Handled(caps: seq<byte>, effects: seq<Effect>)

  /**
    handleMessage: a capabilities message replaces the whole capability set
    by its payload and then notifies every observer; the two print messages
    go to the print collaborator; any other type is dropped.
  */
  function HandleMessage(p: Protocol, hs: seq<Handler>, caps: seq<byte>, msgType: uint32, msg: seq<byte>): (r: Handled)
    requires p.Unmarshall(msgType, msg)
    ensures |caps| == CAPS_MSG_SIZE ==> |r.caps| == CAPS_MSG_SIZE
    ensures msgType == p.capabilitiesType ==> r.caps == msg && r.effects == Notifications(hs)
    ensures msgType != p.capabilitiesType ==> r.caps == caps && |r.effects| <= 1
  {
    if msgType == p.capabilitiesType then Handled(msg, Notifications(hs))
    else if msgType == p.printJobType then Handled(caps, [PrintJob(msg)])
    else if msgType == p.printJobDataType then Handled(caps, [PrintJobData(msg)])
    else Handled(caps, [])
  }

  /**
    After a capabilities message the supported set is exactly the one the
    message carries, whatever was supported before, and each observer has been
    called once.
  */
  lemma CapabilitiesReplaced(p: Protocol, hs: seq<Handler>, caps: seq<byte>, msg: seq<byte>, c: int)
    requires p.Unmarshall(p.capabilitiesType, msg) && |caps| == CAPS_MSG_SIZE
    ensures var r := HandleMessage(p, hs, caps, p.capabilitiesType, msg);
            && (Supports(r.caps, c) <==> Supports(msg, c))
            && r.effects == Notifications(hs)
  {
  }

  /** Types other than the three handled ones change nothing and have no effect. */
  lemma OtherTypesDropped(p: Protocol, hs: seq<Handler>, caps: seq<byte>, msgType: uint32, msg: seq<byte>)
    requires p.Unmarshall(msgType, msg)
    requires msgType != p.capabilitiesType && msgType != p.printJobType && msgType != p.printJobDataType
    ensures HandleMessage(p, hs, caps, msgType, msg) == Handled(caps, [])
  {
  }

  /** The two print messages go to the print collaborator, with their payload, and leave the set as it is. */
  lemma PrintMessagesForwarded(p: Protocol, hs: seq<Handler>, caps: seq<byte>, msg: seq<byte>)
    requires p.Valid()
    ensures p.Unmarshall(p.printJobType, msg) ==>
              HandleMessage(p, hs, caps, p.printJobType, msg) == Handled(caps, [PrintJob(msg)])
    ensures p.Unmarshall(p.printJobDataType, msg) ==>
              HandleMessage(p, hs, caps, p.printJobDataType, msg) == Handled(caps, [PrintJobData(msg)])
  {
  }

  /** Observers are prepended on registration, so the newest is notified first. */
  lemma NewestObserverFirst(h: Handler, hs: seq<Handler>)
    ensures Notifications([h] + hs) == [Notified(h)] + Notifications(hs)
  {
    assert ([h] + hs)[1..] == hs;
  }

  /** Walking the list one observer further adds that observer's notification. */
  lemma NotificationsExtend(hs: seq<Handler>, k: nat)
    requires k < |hs|
    ensures Notifications(hs[..k + 1]) == Notifications(hs[..k]) + [Notified(hs[k])]
  {
    var a, b := Notifications(hs[..k + 1]), Notifications(hs[..k]) + [Notified(hs[k])];
    assert |a| == |b|;
    forall i | 0 <= i < |a| ensures a[i] == b[i] {
      assert hs[..k + 1][i] == hs[i];
    }
  }

  // ---------------------------------------------------------------------------
  // The frame reader

  datatype WaitState = WaitNewMessage | WaitData

  /**
    The reader's state: the wait state, the last header decoded, the bytes
    received into the current buffer (from its start to the cursor) and the
    buffer's size.
  */
  datatype Reader = Reader(state: WaitState, curHeader: Header, filled: seq<byte>, capacity: nat)

  /** The reader together with what handling messages changes. */
  datatype Session = Session(reader: Reader, caps: seq<byte>, trace: seq<Effect>)

  /**
    The buffer is header-sized while a header is awaited and exactly as large
    as the accepted header's size while a body is; the cursor is inside it.
  */
  predicate Shaped(p: Protocol, s: Session) {
    && |s.reader.filled| <= s.reader.capacity
    && |s.caps| == CAPS_MSG_SIZE
    && (s.reader.state == WaitNewMessage ==> s.reader.capacity == HEADER_SIZE)
    && (s.reader.state == WaitData ==>
          s.reader.capacity == s.reader.curHeader.size as nat && p.HeaderAcceptable(s.reader.curHeader))
  }

  /** Between two input bytes: the buffer has room for at least one more. */
  predicate Awaiting(p: Protocol, s: Session) {
    Shaped(p, s) && |s.reader.filled| < s.reader.capacity
  }

  /** At the head of the receive loop: awaiting input, or holding an empty body not yet handled. */
  predicate LoopHead(p: Protocol, s: Session) {
    Shaped(p, s) && (|s.reader.filled| < s.reader.capacity || s.reader.capacity == 0)
  }

  /** The reader waiting for the first byte of a header. */
  predicate Idle(s: Session) {
    s.reader.state == WaitNewMessage && |s.reader.filled| == 0 && s.reader.capacity == HEADER_SIZE
  }

  function Fill(s: Session, c: seq<byte>): Session {
    s.(reader := s.reader.(filled := s.reader.filled + c))
  }

  /**
    What the reader does with a full buffer. A header that is too long or of
    an unknown type costs its oldest byte; an acceptable one is kept and a
    buffer of its size awaited. A body is dispatched if the payload check
    passes, and in either case the next header is awaited.
  */
  function Process(p: Protocol, hs: seq<Handler>, s: Session): (r: Session)
    requires Shaped(p, s) && |s.reader.filled| == s.reader.capacity
    ensures LoopHead(p, r)
    ensures s.trace <= r.trace
  {
    var rd := s.reader;
    match rd.state
    case WaitNewMessage =>
      var h := DecodeHeader(rd.filled);
      if h.size as int > p.maxMessageLength || h.msgType as int >= p.maxMessageType then
        s.(reader := Reader(WaitNewMessage, h, rd.filled[1..], HEADER_SIZE))
      else
        s.(reader := Reader(WaitData, h, [], h.size as nat))
    case WaitData =>
      var idle := Reader(WaitNewMessage, rd.curHeader, [], HEADER_SIZE);
      if p.Unmarshall(rd.curHeader.msgType, rd.filled) then
        var d := HandleMessage(p, hs, s.caps, rd.curHeader.msgType, rd.filled);
        Session(idle, d.caps, s.trace + d.effects)
      else
        s.(reader := idle)
  }

  /** An empty body is handled as soon as its header has been accepted. */
  function Settle(p: Protocol, hs: seq<Handler>, s: Session): (r: Session)
    requires LoopHead(p, s)
    ensures Awaiting(p, r)
    ensures s.trace <= r.trace
  {
    if s.reader.capacity == 0 then Process(p, hs, s) else s
  }

  /** One input byte: store it, and process the buffer if it is now full. */
  function StepByte(p: Protocol, hs: seq<Handler>, s: Session, b: byte): (r: Session)
    requires Awaiting(p, s)
    ensures Awaiting(p, r)
    ensures s.trace <= r.trace
  {
    var f := Fill(s, [b]);
    if |f.reader.filled| == f.reader.capacity then Settle(p, hs, Process(p, hs, f)) else f
  }

  /** The reference reader: the bytes of a chunk, one at a time. */
  function Feed(p: Protocol, hs: seq<Handler>, s: Session, data: seq<byte>): (r: Session)
    requires Awaiting(p, s)
    ensures Awaiting(p, r)
    ensures s.trace <= r.trace
    decreases |data|, 1
  {
    if |data| == 0 then s else FeedNext(p, hs, s, data)
  }

  /** A non-empty chunk: its first byte, then the rest. */
  function FeedNext(p: Protocol, hs: seq<Handler>, s: Session, data: seq<byte>): (r: Session)
    requires Awaiting(p, s) && |data| > 0
    ensures Awaiting(p, r)
    ensures s.trace <= r.trace
    decreases |data|, 0
  {
    Feed(p, hs, StepByte(p, hs, s, data[0]), data[1..])
  }

  // ---------------------------------------------------------------------------
  // Properties of the reader

  /** A chunk of one byte is that byte's step. */
  lemma FeedOne(p: Protocol, hs: seq<Handler>, s: Session, b: byte)
    requires Awaiting(p, s)
    ensures Feed(p, hs, s, [b]) == StepByte(p, hs, s, b)
  {
    assert Feed(p, hs, s, [b]) == FeedNext(p, hs, s, [b]);
    assert [b][1..] == [];
  }

  /** Chunking does not matter: two chunks are read as their concatenation. */
  lemma {:induction false} FeedAppend(p: Protocol, hs: seq<Handler>, s: Session, a: seq<byte>, b: seq<byte>)
    requires Awaiting(p, s)
    ensures Feed(p, hs, s, a + b) == Feed(p, hs, Feed(p, hs, s, a), b)
    decreases |a|
  {
    if a == [] {
      assert a + b == b;
    } else {
      assert (a + b)[0] == a[0];
      assert (a + b)[1..] == a[1..] + b;
      FeedAppend(p, hs, StepByte(p, hs, s, a[0]), a[1..], b);
    }
  }

  /** Bytes that do not fill the buffer are only stored. */
  lemma {:induction false} FeedWithinBuffer(p: Protocol, hs: seq<Handler>, s: Session, c: seq<byte>)
    requires Awaiting(p, s) && |s.reader.filled| + |c| < s.reader.capacity
    ensures Feed(p, hs, s, c) == Fill(s, c)
    decreases |c|
  {
    if c == [] {
      assert s.reader.filled + c == s.reader.filled;
    } else {
      var s1 := StepByte(p, hs, s, c[0]);
      assert s1 == Fill(s, [c[0]]);
      FeedWithinBuffer(p, hs, s1, c[1..]);
      assert s.reader.filled + [c[0]] + c[1..] == s.reader.filled + c;
    }
  }

  /** Bytes that exactly fill the buffer are stored and the full buffer processed. */
  lemma FeedFillsBuffer(p: Protocol, hs: seq<Handler>, s: Session, c: seq<byte>)
    requires Awaiting(p, s) && |c| > 0 && |s.reader.filled| + |c| == s.reader.capacity
    ensures Shaped(p, Fill(s, c))
    ensures Feed(p, hs, s, c) == Settle(p, hs, Process(p, hs, Fill(s, c)))
  {
    var init, last := c[..|c| - 1], c[|c| - 1];
    assert c == init + [last];
    FeedAppend(p, hs, s, init, [last]);
    FeedWithinBuffer(p, hs, s, init);
    var s1 := Fill(s, init);
    assert s1.reader.filled + [last] == s.reader.filled + c;
    FeedOne(p, hs, s1, last);
  }

  /** One pass of the receive loop on a chunk that leaves the buffer short: the chunk is only stored. */
  lemma ChunkWithinBuffer(p: Protocol, hs: seq<Handler>, s: Session, chunk: seq<byte>)
    requires LoopHead(p, s) && |s.reader.filled| + |chunk| < s.reader.capacity
    ensures Feed(p, hs, Settle(p, hs, s), chunk) == Fill(s, chunk)
  {
    FeedWithinBuffer(p, hs, s, chunk);
  }

  /**
    One pass of the receive loop on a chunk that fills the buffer (possibly a
    zero-length buffer and an empty chunk): the chunk is stored, the full
    buffer processed, and the rest of the input read from there.
  */
  lemma ChunkFillsBuffer(p: Protocol, hs: seq<Handler>, s: Session, chunk: seq<byte>, rest: seq<byte>)
    requires LoopHead(p, s) && |s.reader.filled| + |chunk| == s.reader.capacity
    ensures Shaped(p, Fill(s, chunk))
    ensures Feed(p, hs, Settle(p, hs, s), chunk + rest)
            == Feed(p, hs, Settle(p, hs, Process(p, hs, Fill(s, chunk))), rest)
  {
    if |chunk| > 0 {
      FeedAppend(p, hs, s, chunk, rest);
      FeedFillsBuffer(p, hs, s, chunk);
    } else {
      assert s.reader.filled + chunk == s.reader.filled;
      assert chunk + rest == rest;
    }
  }

  /**
    The receive loop as written, chunk by chunk: copy as much of the input as
    fits; stop if the buffer is still not full, otherwise process it and go on
    with the rest. A zero-length buffer is processed even with no input left.
  */
  function Drain(p: Protocol, hs: seq<Handler>, s: Session, data: seq<byte>): (r: Session)
    requires LoopHead(p, s)
    ensures Awaiting(p, r)
    decreases 4 * |data| + (if s.reader.capacity == 0 then 2 else 0)
  {
    if |data| == 0 && s.reader.capacity != 0 then s
    else
      var room := s.reader.capacity - |s.reader.filled|;
      var n := if room < |data| then room else |data|;
      var f := Fill(s, data[..n]);
      if |f.reader.filled| < f.reader.capacity then f
      else DrainFull(p, hs, f, data[n..])
  }

  /** The receive loop once the buffer is full: process it, then go on with the rest. */
  function DrainFull(p: Protocol, hs: seq<Handler>, f: Session, rest: seq<byte>): (r: Session)
    requires Shaped(p, f) && |f.reader.filled| == f.reader.capacity
    ensures Awaiting(p, r)
    decreases 4 * |rest| + (if Process(p, hs, f).reader.capacity == 0 then 3 else 1)
  {
    Drain(p, hs, Process(p, hs, f), rest)
  }

  /** The receive loop, started in s on `data`, ends in `target`. */
  predicate DrainsTo(p: Protocol, hs: seq<Handler>, s: Session, data: seq<byte>, target: Session)
    requires LoopHead(p, s)
  {
    Drain(p, hs, s, data) == target
  }

  /**
    One pass of the loop, from index i of the input and with n bytes taken,
    keeps the loop's destination: a pass that leaves the buffer short of full
    has reached it, and so has one that fills it with the input exhausted and
    a non-empty buffer next.
  */
  lemma DrainStep(p: Protocol, hs: seq<Handler>, s: Session, data: seq<byte>, i: nat, n: nat, target: Session)
    requires LoopHead(p, s) && i <= |data| && (i < |data| || s.reader.capacity == 0)
    requires n == if s.reader.capacity - |s.reader.filled| < |data| - i
                  then s.reader.capacity - |s.reader.filled| else |data| - i
    requires DrainsTo(p, hs, s, data[i..], target)
    ensures |s.reader.filled| + n < s.reader.capacity ==>
              i + n == |data| && Awaiting(p, Fill(s, data[i..i + n])) && Fill(s, data[i..i + n]) == target
    ensures |s.reader.filled| + n == s.reader.capacity ==>
              && Shaped(p, Fill(s, data[i..i + n]))
              && DrainsTo(p, hs, Process(p, hs, Fill(s, data[i..i + n])), data[i + n..], target)
    ensures |s.reader.filled| + n == s.reader.capacity && i + n == |data|
            && Process(p, hs, Fill(s, data[i..i + n])).reader.capacity != 0 ==>
              && Awaiting(p, Process(p, hs, Fill(s, data[i..i + n])))
              && Process(p, hs, Fill(s, data[i..i + n])) == target
  {
    assert data[i..][..n] == data[i..i + n];
    assert data[i..][n..] == data[i + n..];
    if |s.reader.filled| + n == s.reader.capacity {
      assert Drain(p, hs, s, data[i..]) == DrainFull(p, hs, Fill(s, data[i..i + n]), data[i + n..]);
    }
  }

  /** The loop as written reads its input exactly as the byte-at-a-time reader does. */
  lemma {:induction false} DrainIsFeed(p: Protocol, hs: seq<Handler>, s: Session, data: seq<byte>)
    requires LoopHead(p, s)
    ensures Drain(p, hs, s, data) == Feed(p, hs, Settle(p, hs, s), data)
    decreases 2 * |data| + (if s.reader.capacity == 0 then 1 else 0)
  {
    if |data| == 0 && s.reader.capacity != 0 {
    } else {
      var room := s.reader.capacity - |s.reader.filled|;
      var n := if room < |data| then room else |data|;
      var chunk := data[..n];
      assert data == chunk + data[n..];
      var f := Fill(s, chunk);
      if |f.reader.filled| < f.reader.capacity {
        assert chunk == data;
        ChunkWithinBuffer(p, hs, s, chunk);
      } else {
        ChunkFillsBuffer(p, hs, s, chunk, data[n..]);
        DrainIsFeed(p, hs, Process(p, hs, f), data[n..]);
      }
    }
  }

  /**
    Two calls of the receive loop, on two chunks in turn, end where one call
    on their concatenation does.
  */
  lemma DrainChunks(p: Protocol, hs: seq<Handler>, s: Session, a: seq<byte>, b: seq<byte>)
    requires Awaiting(p, s)
    ensures Drain(p, hs, Drain(p, hs, s, a), b) == Drain(p, hs, s, a + b)
  {
    DrainIsFeed(p, hs, s, a);
    DrainIsFeed(p, hs, Drain(p, hs, s, a), b);
    DrainIsFeed(p, hs, s, a + b);
    FeedAppend(p, hs, s, a, b);
  }

  /**
    A header that fails either check costs exactly its oldest byte: the other
    bytes move to the front of the buffer, the next header is still awaited
    and nothing is dispatched.
  */
  lemma BadHeaderCostsOneByte(p: Protocol, hs: seq<Handler>, s: Session, b: byte)
    requires Awaiting(p, s) && s.reader.state == WaitNewMessage && |s.reader.filled| == HEADER_SIZE - 1
    requires !p.HeaderAcceptable(DecodeHeader(s.reader.filled + [b]))
    ensures var r := StepByte(p, hs, s, b);
            && r.reader == Reader(WaitNewMessage, DecodeHeader(s.reader.filled + [b]), s.reader.filled[1..] + [b], HEADER_SIZE)
            && r.caps == s.caps && r.trace == s.trace
  {
    assert (s.reader.filled + [b])[1..] == s.reader.filled[1..] + [b];
  }

  /**
    An acceptable header is stored and a buffer of exactly its size awaited;
    a header announcing an empty body has that body dispatched at once, even
    when the header's last byte ends the chunk.
  */
  lemma GoodHeaderAwaitsBody(p: Protocol, hs: seq<Handler>, s: Session, b: byte)
    requires Awaiting(p, s) && s.reader.state == WaitNewMessage && |s.reader.filled| == HEADER_SIZE - 1
    requires p.HeaderAcceptable(DecodeHeader(s.reader.filled + [b]))
    ensures var h := DecodeHeader(s.reader.filled + [b]);
            var r := Feed(p, hs, s, [b]);
            && (h.size > 0 ==> r == s.(reader := Reader(WaitData, h, [], h.size as nat)))
            && (h.size == 0 ==>
                  && r.reader == Reader(WaitNewMessage, h, [], HEADER_SIZE)
                  && (p.Unmarshall(h.msgType, []) ==>
                        Handled(r.caps, r.trace) == Handled(HandleMessage(p, hs, s.caps, h.msgType, []).caps,
                                                            s.trace + HandleMessage(p, hs, s.caps, h.msgType, []).effects))
                  && (!p.Unmarshall(h.msgType, []) ==> r.caps == s.caps && r.trace == s.trace))
  {
    FeedOne(p, hs, s, b);
  }

  /**
    Completing a body dispatches it exactly when the payload check passes,
    and in both cases returns the reader to a header-sized buffer.
  */
  lemma BodyReturnsToHeader(p: Protocol, hs: seq<Handler>, s: Session, b: byte)
    requires Awaiting(p, s) && s.reader.state == WaitData && |s.reader.filled| + 1 == s.reader.capacity
    ensures var h := s.reader.curHeader;
            var m := s.reader.filled + [b];
            var r := StepByte(p, hs, s, b);
            && Idle(r) && r.reader.curHeader == h
            && (p.Unmarshall(h.msgType, m) ==>
                  r.caps == HandleMessage(p, hs, s.caps, h.msgType, m).caps
                  && r.trace == s.trace + HandleMessage(p, hs, s.caps, h.msgType, m).effects)
            && (!p.Unmarshall(h.msgType, m) ==> r.caps == s.caps && r.trace == s.trace)
  {
  }

  /**
    A whole frame, however it is split into chunks, is read from an idle
    reader into exactly one dispatch of its payload (if the payload check
    passes) and leaves the reader idle again.
  */
  lemma FrameDelivered(p: Protocol, hs: seq<Handler>, s: Session, h: Header, m: seq<byte>)
    requires Shaped(p, s) && Idle(s)
    requires p.HeaderAcceptable(h) && |m| == h.size as int
    ensures var r := Feed(p, hs, s, EncodeHeader(h) + m);
            && Idle(r) && r.reader.curHeader == h
            && (p.Unmarshall(h.msgType, m) ==>
                  r.caps == HandleMessage(p, hs, s.caps, h.msgType, m).caps
                  && r.trace == s.trace + HandleMessage(p, hs, s.caps, h.msgType, m).effects)
            && (!p.Unmarshall(h.msgType, m) ==> r.caps == s.caps && r.trace == s.trace)
  {
    var hdr := EncodeHeader(h);
    DecodeEncodeHeader(h);
    FeedAppend(p, hs, s, hdr, m);
    FeedFillsBuffer(p, hs, s, hdr);
    assert s.reader.filled + hdr == hdr;
    var s1 := Feed(p, hs, s, hdr);
    if |m| == 0 {
      assert m == [];
      assert hdr + m == hdr;
    } else {
      assert s1 == s.(reader := Reader(WaitData, h, [], h.size as nat));
      FeedFillsBuffer(p, hs, s1, m);
      assert s1.reader.filled + m == m;
    }
  }

  // ---------------------------------------------------------------------------
  // Streams of frames

  datatype Frame = Frame(header: Header, payload: seq<byte>)

  predicate WellFormedFrame(p: Protocol, f: Frame) {
    p.HeaderAcceptable(f.header) && |f.payload| == f.header.size as int
  }

  function Encode(fs: seq<Frame>): seq<byte>
    decreases |fs|
  {
    if |fs| == 0 then [] else EncodeHeader(fs[0].header) + fs[0].payload + Encode(fs[1..])
  }

  /** One frame's message, dispatched if its payload passes the check and dropped otherwise. */
  function Dispatch(p: Protocol, hs: seq<Handler>, caps: seq<byte>, f: Frame): (r: Handled)
    requires |caps| == CAPS_MSG_SIZE
    ensures |r.caps| == CAPS_MSG_SIZE
  {
    if p.Unmarshall(f.header.msgType, f.payload) then HandleMessage(p, hs, caps, f.header.msgType, f.payload)
    else Handled(caps, [])
  }

  /** Each frame in turn, dispatched if its payload passes the check. */
  function DispatchAll(p: Protocol, hs: seq<Handler>, caps: seq<byte>, fs: seq<Frame>): (r: Handled)
    requires |caps| == CAPS_MSG_SIZE
    ensures |r.caps| == CAPS_MSG_SIZE
    decreases |fs|
  {
    if |fs| == 0 then Handled(caps, [])
    else
      var d := Dispatch(p, hs, caps, fs[0]);
      var rest := DispatchAll(p, hs, d.caps, fs[1..]);
      Handled(rest.caps, d.effects + rest.effects)
  }

  /** The first frame of a stream is read as a frame of its own, from an idle reader to an idle one. */
  lemma FirstFrame(p: Protocol, hs: seq<Handler>, s: Session, fs: seq<Frame>)
    requires Shaped(p, s) && Idle(s)
    requires |fs| > 0 && WellFormedFrame(p, fs[0])
    ensures var s1 := Feed(p, hs, s, EncodeHeader(fs[0].header) + fs[0].payload);
            var d := Dispatch(p, hs, s.caps, fs[0]);
            && Shaped(p, s1) && Idle(s1) && s1.caps == d.caps && s1.trace == s.trace + d.effects
            && Feed(p, hs, s, Encode(fs)) == Feed(p, hs, s1, Encode(fs[1..]))
  {
    var f := fs[0];
    assert Encode(fs) == (EncodeHeader(f.header) + f.payload) + Encode(fs[1..]);
    FeedAppend(p, hs, s, EncodeHeader(f.header) + f.payload, Encode(fs[1..]));
    FrameDelivered(p, hs, s, f.header, f.payload);
  }

  /** A stream of valid frames is dispatched frame by frame, in order. */
  lemma {:induction false} FramesDelivered(p: Protocol, hs: seq<Handler>, s: Session, fs: seq<Frame>)
    requires Shaped(p, s) && Idle(s)
    requires forall i :: 0 <= i < |fs| ==> WellFormedFrame(p, fs[i])
    ensures var r := Feed(p, hs, s, Encode(fs));
            var d := DispatchAll(p, hs, s.caps, fs);
            Idle(r) && r.caps == d.caps && r.trace == s.trace + d.effects
    decreases |fs|
  {
    if |fs| == 0 {
      assert s.trace + [] == s.trace;
    } else {
      FirstFrame(p, hs, s, fs);
      var s1 := Feed(p, hs, s, EncodeHeader(fs[0].header) + fs[0].payload);
      FramesDelivered(p, hs, s1, fs[1..]);
      var d := Dispatch(p, hs, s.caps, fs[0]);
      var rest := DispatchAll(p, hs, d.caps, fs[1..]);
      assert s.trace + d.effects + rest.effects == s.trace + (d.effects + rest.effects);
    }
  }
}
