/**
  The flexVDI port session: the single `port` structure of the client, its
  receive loop, the capability handshake run when the channel opens, the
  observer registry, the send path and the printer-sharing entry points.

  The channel itself is not modelled: what the port writes to it and what it
  hands to its collaborators is appended to `trace`, and each asynchronous
  write that has not completed yet is an entry of `writes`. A GCancellable is
  modelled by an identity: `cancellable` is the session's current one (None
  for NULL) and `cancelledTokens` those that have been cancelled.
*/
module FlexVdiPort {
  import opened Flexdp
  import opened MsgBuffers
  import opened PortSpec
  import opened Options

  /** What runs when an asynchronous write completes. */
  datatype Continuation =
    | FreeBuffer(buffer: MsgPtr)             // sendMessage's own callback, which deletes the buffer
    | UserCallback(cb: nat, userData: nat)   // a caller's callback and its data

  /** AsyncUserData of an outstanding write, and the cancellable the write was issued with. */
  datatype PendingWrite = PendingWrite(token: Option<nat>, cont: Continuation)

  /** g_cancellable_is_cancelled, which answers FALSE for NULL. */
  predicate IsCancelled(token: Option<nat>, cancelled: set<nat>) {
    token.Some? && token.value in cancelled
  }

  /** What a continuation does when it runs. */
  function ContinuationEffect(c: Continuation, ok: bool): Effect
    requires c.FreeBuffer? ==> c.buffer.offset >= HEADER_SIZE
  {
    match c
    case FreeBuffer(buf) => BufferFreed(AllocationStart(buf))
    case UserCallback(cb, data) => Completed(cb, data, ok)
  }

  /** Fills the payload of a message block, after its header, leaving the header as it is. */
  method WritePayload(block: array<byte>, payload: seq<byte>)
    requires HEADER_SIZE + |payload| <= block.Length
    modifies block
    ensures block[..HEADER_SIZE] == old(block[..HEADER_SIZE])
    ensures block[HEADER_SIZE..HEADER_SIZE + |payload|] == payload
  {
    forall k | 0 <= k < |payload| {
      block[HEADER_SIZE + k] := payload[k];
    }
  }

  /** `head->type = type`: bytes 4 to 8 of a message block take the type, the others stay. */
  method StampType(block: array<byte>, msgType: uint32)
    requires block.Length >= HEADER_SIZE
    modifies block
    ensures block[..] == old(block[..4]) + EncodeU32(msgType) + old(block[HEADER_SIZE..])
  {
    var tb := EncodeU32(msgType);
    block[4], block[5], block[6], block[7] := tb[0], tb[1], tb[2], tb[3];
    assert block[..] == old(block[..4]) + tb + old(block[HEADER_SIZE..]);
  }

  /** The block after stamping starts with the frame: the header with the stored size, then the payload. */
  lemma StampedFrame(b: seq<byte>, msgType: uint32, size: nat)
    requires |b| >= HEADER_SIZE + size && DecodeU32(b[..4]) as int == size
    ensures (b[..4] + EncodeU32(msgType) + b[HEADER_SIZE..])[..HEADER_SIZE + size]
            == EncodeHeader(Header(size as uint32, msgType)) + b[HEADER_SIZE..HEADER_SIZE + size]
  {
    EncodeDecodeU32(b[..4]);
    var stamped := b[..4] + EncodeU32(msgType) + b[HEADER_SIZE..];
    assert stamped[..HEADER_SIZE] == EncodeHeader(Header(size as uint32, msgType));
    assert stamped[HEADER_SIZE..HEADER_SIZE + size] == b[HEADER_SIZE..HEADER_SIZE + size];
    assert stamped[..HEADER_SIZE + size] == stamped[..HEADER_SIZE] + stamped[HEADER_SIZE..HEADER_SIZE + size];
  }

  /**
    The first frame sent when the channel opens: a reset message of the reset
    message's size, its payload whatever the allocation held.
  */
  predicate ResetFrame(p: Protocol, e: Effect)
    requires p.Valid()
  {
    && e.Write? && |e.frame| == HEADER_SIZE + p.resetMsgSize
    && DecodeHeader(e.frame[..HEADER_SIZE]) == Header(p.resetMsgSize as uint32, p.resetType)
  }

  /** The second: a capabilities message whose set holds the printing capability alone. */
  function CapabilitiesFrame(p: Protocol): Effect
    requires p.Valid()
  {
    Write(EncodeHeader(Header(CAPS_MSG_SIZE as uint32, p.capabilitiesType))
          + SetCapability(NO_CAPABILITIES, p.capPrinting))
  }

  class Port {
    const proto: ValidProtocol

    var listening: bool            // port_data is connected to the channel's data signal
    var connected: bool
    var cancellable: Option<nat>
    var cancelledTokens: set<nat>
    var tokensCreated: nat

    var state: WaitState
    var curHeader: Header
    var buffer: array<byte>        // bufend is buffer.Length
    var bufpos: nat
    var agentCapabilities: seq<byte>

    var handlers: seq<Handler>     // connectionHandlers, head first
    var trace: seq<Effect>
    var writes: map<nat, PendingWrite>
    var writesIssued: nat

    /** The receive state as the reader of module PortSpec sees it. */
    ghost function AsReader(): Reader
      reads this`state, this`curHeader, this`buffer, this`bufpos, buffer
      requires bufpos <= buffer.Length
    {
      Reader(state, curHeader, buffer[..bufpos], buffer.Length)
    }

    ghost function AsSession(): Session
      reads this`state, this`curHeader, this`buffer, this`bufpos, this`agentCapabilities, this`trace, buffer
      requires bufpos <= buffer.Length
    {
      Session(AsReader(), agentCapabilities, trace)
    }

    /** The receive side: a well-formed reader while the receive loop is connected. */
    ghost predicate ReaderValid()
      reads this`listening, this`state, this`curHeader, this`buffer, this`bufpos, this`agentCapabilities, buffer
    {
      && |agentCapabilities| == CAPS_MSG_SIZE
      && bufpos <= buffer.Length
      && (listening ==> Awaiting(proto, Session(AsReader(), agentCapabilities, [])))
    }

    /**
      The send side: the live cancellable has not been cancelled, identities
      are fresh, and every buffer owned by a pending write is a message buffer.
    */
    ghost predicate SenderValid()
      reads this`cancellable, this`cancelledTokens, this`tokensCreated, this`writes, this`writesIssued
    {
      && (cancellable.Some? ==> cancellable.value < tokensCreated && cancellable.value !in cancelledTokens)
      && (forall t :: t in cancelledTokens ==> t < tokensCreated)
      && (forall k :: k in writes ==> k < writesIssued)
      && (forall k :: k in writes && writes[k].cont.FreeBuffer? ==> writes[k].cont.buffer.offset == HEADER_SIZE)
    }

    ghost predicate Valid()
      reads this, buffer
    {
      ReaderValid() && SenderValid()
    }

    /** The zero-initialised static structure, before the channel ever opens. */
    constructor (proto: ValidProtocol)
      ensures Valid() && this.proto == proto
      ensures !listening && !connected && cancellable == None
      ensures state == WaitNewMessage && curHeader == Header(0, 0)
      ensures handlers == [] && trace == [] && writes == map[]
    {
      this.proto := proto;
      listening, connected := false, false;
      cancellable, cancelledTokens, tokensCreated := None, {}, 0;
      state, curHeader := WaitNewMessage, Header(0, 0);
      buffer, bufpos := new byte[0], 0;
      agentCapabilities := NO_CAPABILITIES;
      handlers, trace := [], [];
      writes, writesIssued := map[], 0;
    }

    // -------------------------------------------------------------------------
    // Send path

    /**
      sendMessageAsync: stamps the type next to the size that getMsgBuffer
      stored, and writes header and payload to the channel under the
      session's cancellable, with the continuation wrapped for later.
      (The marshalling routines leave the bytes as they are.)
    */
    method SendMessageAsync(msgType: uint32, buf: MsgPtr, cont: Continuation)
      requires Valid() && IsMsgBuffer(buf) && buf.block != buffer
      requires cont.FreeBuffer? ==> cont.buffer.offset == HEADER_SIZE
      modifies buf.block, this`trace, this`writes, this`writesIssued
      ensures Valid()
      ensures var size := old(SizeFieldOf(buf.block)) as int;
              && buf.block[..] == old(buf.block[..4]) + EncodeU32(msgType) + old(buf.block[HEADER_SIZE..])
              && trace == old(trace) + [Write(EncodeHeader(Header(size as uint32, msgType))
                                               + old(buf.block[HEADER_SIZE..HEADER_SIZE + size]))]
      ensures writes == old(writes)[old(writesIssued) := PendingWrite(cancellable, cont)]
      ensures writesIssued == old(writesIssued) + 1
    {
      var size := SizeFieldOf(buf.block);
      ghost var before := buf.block[..];
      StampType(buf.block, msgType);
      StampedFrame(before, msgType, size as nat);
      var frame := buf.block[..HEADER_SIZE + size as int];
      trace := trace + [Write(frame)];
      writes := writes[writesIssued := PendingWrite(cancellable, cont)];
      writesIssued := writesIssued + 1;
    }

    /** sendMessage: the same, with a continuation that only deletes the buffer. */
    method SendMessage(msgType: uint32, buf: MsgPtr)
      requires Valid() && IsMsgBuffer(buf) && buf.block != buffer
      modifies buf.block, this`trace, this`writes, this`writesIssued
      ensures Valid()
      ensures var size := old(SizeFieldOf(buf.block)) as int;
              trace == old(trace) + [Write(EncodeHeader(Header(size as uint32, msgType))
                                             + old(buf.block[HEADER_SIZE..HEADER_SIZE + size]))]
      ensures writes == old(writes)[old(writesIssued) := PendingWrite(cancellable, FreeBuffer(buf))]
      ensures writesIssued == old(writesIssued) + 1
    {
      SendMessageAsync(msgType, buf, FreeBuffer(buf));
    }

    /**
      The completion wrapper, sendMessageAsyncCb, with the cancellation check
      made on the cancellable the write was issued with: a caller's callback
      runs only if that one was not cancelled, while sendMessage's own
      continuation always runs, so its buffer is released on every path. The
      wrapper is released either way.
    */
    method WriteCompleted(id: nat, ok: bool)
      requires Valid() && id in writes
      modifies this`writes, this`trace
      ensures Valid()
      ensures writes == old(writes) - {id}
      ensures var w := old(writes[id]);
              w.cont.FreeBuffer? ==> trace == old(trace) + [BufferFreed(AllocationStart(w.cont.buffer))]
      ensures var w := old(writes[id]);
              w.cont.UserCallback? ==>
                trace == old(trace) + (if IsCancelled(w.token, cancelledTokens) then []
                                       else [Completed(w.cont.cb, w.cont.userData, ok)])
    {
      var w := writes[id];
      if w.cont.FreeBuffer? || !IsCancelled(w.token, cancelledTokens) {
        trace := trace + [ContinuationEffect(w.cont, ok)];
      }
      writes := writes - {id};
    }

    /**
      sendMessageAsyncCb as written: the check consults the session's
      cancellable at completion time, which closing the channel has reset
      to NULL.
    */
    method WriteCompletedAsWritten(id: nat, ok: bool)
      requires Valid() && id in writes
      modifies this`writes, this`trace
      ensures Valid()
      ensures writes == old(writes) - {id}
      ensures trace == old(trace) + (if IsCancelled(cancellable, cancelledTokens) then []
                                     else [ContinuationEffect(old(writes[id]).cont, ok)])
    {
      var w := writes[id];
      if !IsCancelled(cancellable, cancelledTokens) {
        trace := trace + [ContinuationEffect(w.cont, ok)];
      }
      writes := writes - {id};
    }

    // -------------------------------------------------------------------------
    // Session lifetime

    /** preparePortBuffer: a new receive buffer of exactly `size` bytes, cursor at its start. */
    method PreparePortBuffer(size: nat)
      modifies this`buffer, this`bufpos
      ensures fresh(buffer) && buffer.Length == size && bufpos == 0
    {
      buffer := new byte[size];
      bufpos := 0;
    }

    /** The first message of the handshake: a reset message, its payload as allocated. */
    method SendReset()
      requires Valid()
      modifies this`trace, this`writes, this`writesIssued
      ensures Valid()
      ensures |trace| == |old(trace)| + 1 && trace[..|old(trace)|] == old(trace)
      ensures ResetFrame(proto, trace[|old(trace)|])
      ensures writesIssued == old(writesIssued) + 1
      ensures old(writesIssued) in writes && writes[old(writesIssued)].cont.FreeBuffer?
      ensures writes == old(writes)[old(writesIssued) := PendingWrite(cancellable, writes[old(writesIssued)].cont)]
    {
      var buf := GetMsgBuffer(proto.resetMsgSize);
      ghost var h := Header(proto.resetMsgSize as uint32, proto.resetType);
      ghost var payload := buf.block[HEADER_SIZE..HEADER_SIZE + proto.resetMsgSize];
      SendMessage(proto.resetType, buf);
      assert trace == old(trace) + [Write(EncodeHeader(h) + payload)];
      assert (EncodeHeader(h) + payload)[..HEADER_SIZE] == EncodeHeader(h);
      DecodeEncodeHeader(h);
    }

    /** The second message of the handshake: a capabilities message announcing printing alone. */
    method SendCapabilities()
      requires Valid()
      modifies this`trace, this`writes, this`writesIssued
      ensures Valid()
      ensures trace == old(trace) + [CapabilitiesFrame(proto)]
      ensures writesIssued == old(writesIssued) + 1
      ensures old(writesIssued) in writes && writes[old(writesIssued)].cont.FreeBuffer?
      ensures writes == old(writes)[old(writesIssued) := PendingWrite(cancellable, writes[old(writesIssued)].cont)]
    {
      var buf := GetMsgBuffer(CAPS_MSG_SIZE);
      WritePayload(buf.block, SetCapability(NO_CAPABILITIES, proto.capPrinting));
      SendMessage(proto.capabilitiesType, buf);
    }

    /** The handshake flexvdi_port_open sends: the reset message, then the capabilities message. */
    method SendHandshake()
      requires Valid()
      modifies this`trace, this`writes, this`writesIssued
      ensures Valid()
      ensures |trace| == |old(trace)| + 2 && trace[..|old(trace)|] == old(trace)
      ensures ResetFrame(proto, trace[|old(trace)|]) && trace[|old(trace)| + 1] == CapabilitiesFrame(proto)
      ensures writesIssued == old(writesIssued) + 2
      ensures old(writesIssued) in writes && old(writesIssued) + 1 in writes
      ensures writes[old(writesIssued)].cont.FreeBuffer? && writes[old(writesIssued) + 1].cont.FreeBuffer?
      ensures writes == old(writes)[old(writesIssued) := PendingWrite(cancellable, writes[old(writesIssued)].cont)]
                                   [old(writesIssued) + 1 := PendingWrite(cancellable, writes[old(writesIssued) + 1].cont)]
    {
      SendReset();
      SendCapabilities();
    }

    /**
      flexvdi_port_open, for the channel's "port-opened" property. Opening
      connects the receive loop, marks the agent connected, takes a new
      cancellable, clears the capability set, makes the reader await a
      header, and sends the handshake. Closing disconnects the receive loop,
      marks the agent disconnected, and cancels and drops the cancellable.
    */
    method Open(isOpen: bool)
      requires Valid()
      modifies this`listening, this`connected, this`cancellable, this`cancelledTokens, this`tokensCreated
      modifies this`state, this`buffer, this`bufpos, this`agentCapabilities
      modifies this`trace, this`writes, this`writesIssued
      ensures Valid()
      ensures isOpen ==>
                && listening && connected
                && cancellable == Some(old(tokensCreated)) && cancelledTokens == old(cancelledTokens)
                && AsReader() == Reader(WaitNewMessage, curHeader, [], HEADER_SIZE)
                && agentCapabilities == NO_CAPABILITIES
                && |trace| == |old(trace)| + 2 && trace[..|old(trace)|] == old(trace)
                && ResetFrame(proto, trace[|old(trace)|]) && trace[|old(trace)| + 1] == CapabilitiesFrame(proto)
                && writesIssued == old(writesIssued) + 2
                && old(writesIssued) in writes && old(writesIssued) + 1 in writes
                && writes[old(writesIssued)].cont.FreeBuffer? && writes[old(writesIssued) + 1].cont.FreeBuffer?
                && writes == old(writes)[old(writesIssued) := PendingWrite(cancellable, writes[old(writesIssued)].cont)]
                                        [old(writesIssued) + 1 := PendingWrite(cancellable, writes[old(writesIssued) + 1].cont)]
      ensures IsConnected() == isOpen
      ensures isOpen ==> fresh(buffer)
      ensures !isOpen ==>
                && !listening && !connected && cancellable == None
                && cancelledTokens == old(cancelledTokens)
                                      + (if old(cancellable).Some? then {old(cancellable).value} else {})
                && state == old(state) && buffer == old(buffer) && bufpos == old(bufpos)
                && agentCapabilities == old(agentCapabilities)
                && trace == old(trace) && writes == old(writes) && writesIssued == old(writesIssued)
    {
      if isOpen {
        Connect();
      } else {
        Disconnect();
      }
    }

    /** Opening: the branch of flexvdi_port_open taken when the port opened. */
    method Connect()
      requires Valid()
      modifies this`listening, this`connected, this`cancellable, this`tokensCreated
      modifies this`state, this`buffer, this`bufpos, this`agentCapabilities
      modifies this`trace, this`writes, this`writesIssued
      ensures Valid()
      ensures listening && connected && cancellable == Some(old(tokensCreated))
      ensures fresh(buffer) && AsReader() == Reader(WaitNewMessage, curHeader, [], HEADER_SIZE)
      ensures agentCapabilities == NO_CAPABILITIES
      ensures |trace| == |old(trace)| + 2 && trace[..|old(trace)|] == old(trace)
      ensures ResetFrame(proto, trace[|old(trace)|]) && trace[|old(trace)| + 1] == CapabilitiesFrame(proto)
      ensures writesIssued == old(writesIssued) + 2
      ensures old(writesIssued) in writes && old(writesIssued) + 1 in writes
      ensures writes[old(writesIssued)].cont.FreeBuffer? && writes[old(writesIssued) + 1].cont.FreeBuffer?
      ensures writes == old(writes)[old(writesIssued) := PendingWrite(cancellable, writes[old(writesIssued)].cont)]
                                   [old(writesIssued) + 1 := PendingWrite(cancellable, writes[old(writesIssued) + 1].cont)]
    {
      StartSession();
      SendHandshake();
    }

    /** Opening, up to the handshake: the new session's state. */
    method StartSession()
      requires Valid()
      modifies this`listening, this`connected, this`cancellable, this`tokensCreated
      modifies this`state, this`buffer, this`bufpos, this`agentCapabilities
      ensures Valid()
      ensures listening && connected && cancellable == Some(old(tokensCreated))
      ensures fresh(buffer) && AsReader() == Reader(WaitNewMessage, curHeader, [], HEADER_SIZE)
      ensures agentCapabilities == NO_CAPABILITIES
    {
      listening := true;
      connected := true;
      NewCancellable();
      agentCapabilities := NO_CAPABILITIES;
      PreparePortBuffer(HEADER_SIZE);
      state := WaitNewMessage;
    }

    /** g_cancellable_new: a cancellable that no one has cancelled yet becomes the session's. */
    method NewCancellable()
      requires SenderValid()
      modifies this`cancellable, this`tokensCreated
      ensures SenderValid()
      ensures cancellable == Some(old(tokensCreated)) && tokensCreated == old(tokensCreated) + 1
    {
      cancellable := Some(tokensCreated);
      tokensCreated := tokensCreated + 1;
    }

    /** Closing: the branch of flexvdi_port_open taken when the port closed. */
    method Disconnect()
      requires Valid()
      modifies this`listening, this`connected, this`cancellable, this`cancelledTokens
      ensures Valid()
      ensures !listening && !connected && cancellable == None
      ensures cancelledTokens == old(cancelledTokens)
                                 + (if old(cancellable).Some? then {old(cancellable).value} else {})
    {
      listening := false;
      connected := false;
      if cancellable.Some? {
        cancelledTokens := cancelledTokens + {cancellable.value};
      }
      cancellable := None;
    }

    /** flexvdi_is_agent_connected: the connected flag, which Open sets and clears. */
    predicate IsConnected()
      reads this`connected
      ensures IsConnected() == connected
    {
      connected
    }

    /** flexvdi_agent_supports_capability: reads the cached set, connected or not. */
    predicate SupportsCapability(cap: int)
      reads this
      requires |agentCapabilities| == CAPS_MSG_SIZE
      ensures SupportsCapability(cap) ==> 0 <= cap < CAPABILITY_COUNT
    {
      Supports(agentCapabilities, cap)
    }

    /** flexvdi_on_agent_connected: the new observer goes to the head of the list. */
    method OnAgentConnected(h: Handler)
      modifies this`handlers
      ensures handlers == [h] + old(handlers)
    {
      handlers := [h] + handlers;
    }

    /**
      flexvdi_share_printer: forwards to the print collaborator, whose answer
      is `reply`, only while the agent is connected; otherwise fails at once.
    */
    method SharePrinter(printer: string, reply: bool) returns (ok: bool)
      modifies this`trace
      ensures ok == (connected && reply)
      ensures trace == old(trace) + (if connected then [Effect.SharePrinter(printer)] else [])
    {
      if connected {
        trace := trace + [Effect.SharePrinter(printer)];
        ok := reply;
      } else {
        ok := false;
      }
    }

    /** flexvdi_unshare_printer: as SharePrinter. */
    method UnsharePrinter(printer: string, reply: bool) returns (ok: bool)
      modifies this`trace
      ensures ok == (connected && reply)
      ensures trace == old(trace) + (if connected then [Effect.UnsharePrinter(printer)] else [])
    {
      if connected {
        trace := trace + [Effect.UnsharePrinter(printer)];
        ok := reply;
      } else {
        ok := false;
      }
    }

    // -------------------------------------------------------------------------
    // Receive path

    /** handleCapabilitiesMsg: copy the whole set, then call every observer from the head of the list. */
    method HandleCapabilitiesMsg(msg: seq<byte>)
      requires |msg| == CAPS_MSG_SIZE
      modifies this`agentCapabilities, this`trace
      ensures agentCapabilities == msg
      ensures trace == old(trace) + Notifications(handlers)
    {
      agentCapabilities := msg;
      var k := 0;
      while k < |handlers|
        invariant 0 <= k <= |handlers|
        invariant agentCapabilities == msg
        invariant trace == old(trace) + Notifications(handlers[..k])
      {
        NotificationsExtend(handlers, k);
        trace := trace + [Notified(handlers[k])];
        k := k + 1;
      }
      assert handlers[..|handlers|] == handlers;
    }

    /** handleMessage: the three handled types; any other is dropped. */
    method HandleMessage(msgType: uint32, msg: seq<byte>)
      requires proto.Unmarshall(msgType, msg)
      modifies this`agentCapabilities, this`trace
      ensures var d := PortSpec.HandleMessage(proto, handlers, old(agentCapabilities), msgType, msg);
              agentCapabilities == d.caps && trace == old(trace) + d.effects
    {
      if msgType == proto.capabilitiesType {
        HandleCapabilitiesMsg(msg);
      } else if msgType == proto.printJobType {
        trace := trace + [PrintJob(msg)];
      } else if msgType == proto.printJobDataType {
        trace := trace + [PrintJobData(msg)];
      }
    }

    /** prepareOneByte: slide the header bytes one place left; the cursor stops one short of the end. */
    method PrepareOneByte()
      requires buffer.Length == HEADER_SIZE
      modifies buffer, this`bufpos
      ensures bufpos == HEADER_SIZE - 1
      ensures buffer[..bufpos] == old(buffer[1..])
    {
      var i := 0;
      while i < HEADER_SIZE - 1
        invariant 0 <= i <= HEADER_SIZE - 1
        invariant forall k :: 0 <= k < i ==> buffer[k] == old(buffer[k + 1])
        invariant forall k :: i <= k < HEADER_SIZE ==> buffer[k] == old(buffer[k])
      {
        buffer[i] := buffer[i + 1];
        i := i + 1;
      }
      bufpos := i;
      assert forall k :: 0 <= k < bufpos ==> buffer[..bufpos][k] == old(buffer[1..])[k];
    }

    /** memcpy into the buffer at the cursor, and advance the cursor. */
    method CopyIn(chunk: seq<byte>)
      requires bufpos + |chunk| <= buffer.Length
      modifies buffer, this`bufpos
      ensures bufpos == old(bufpos) + |chunk|
      ensures buffer[..bufpos] == old(buffer[..bufpos]) + chunk
    {
      forall k | 0 <= k < |chunk| {
        buffer[bufpos + k] := chunk[k];
      }
      bufpos := bufpos + |chunk|;
    }

    /** The body of port_data's switch, run on a full buffer. */
    method ProcessFullBuffer()
      requires bufpos == buffer.Length && Shaped(proto, AsSession())
      modifies this`state, this`curHeader, this`buffer, this`bufpos, this`agentCapabilities, this`trace, buffer
      ensures bufpos <= buffer.Length && (buffer == old(buffer) || fresh(buffer))
      ensures AsSession() == Process(proto, handlers, old(AsSession()))
    {
      assert buffer[..bufpos] == buffer[..];
      match state {
        case WaitNewMessage =>
          curHeader := DecodeHeader(buffer[..]);
          if curHeader.size as int > proto.maxMessageLength {
            PrepareOneByte();     // oversized message
          } else if curHeader.msgType as int >= proto.maxMessageType {
            PrepareOneByte();     // unknown message type
          } else {
            PreparePortBuffer(curHeader.size as nat);
            state := WaitData;
          }
        case WaitData =>
          var msg := buffer[..];
          if !proto.Unmarshall(curHeader.msgType, msg) {
            // wrong message size on reception: the frame is dropped
          } else {
            HandleMessage(curHeader.msgType, msg);
          }
          PreparePortBuffer(HEADER_SIZE);
          state := WaitNewMessage;
      }
    }

    /**
      port_data's loop at input index i, on course for `target`: the reader is
      at the loop head and draining the rest of the input ends in `target`.
    */
    ghost predicate Draining(data: seq<byte>, i: nat, target: Session)
      reads this`state, this`curHeader, this`buffer, this`bufpos, this`agentCapabilities, this`trace, this`handlers, buffer
    {
      && i <= |data| && bufpos <= buffer.Length
      && LoopHead(proto, AsSession())
      && DrainsTo(proto, handlers, AsSession(), data[i..], target)
    }

    /**
      One pass of port_data's loop body, on the input from index i: copy as
      much as fits at the cursor and, if that fills the buffer, process it.
      `n` is the number of input bytes taken and `full` whether the buffer
      was filled.
    */
    method ReceiveChunk(data: seq<byte>, i: nat) returns (n: nat, full: bool)
      requires bufpos <= buffer.Length && LoopHead(proto, AsSession())
      requires i <= |data|
      modifies this`state, this`curHeader, this`buffer, this`bufpos, this`agentCapabilities, this`trace, buffer
      ensures bufpos <= buffer.Length && (buffer == old(buffer) || fresh(buffer))
      ensures n == if old(buffer.Length - bufpos) < |data| - i then old(buffer.Length - bufpos) else |data| - i
      ensures full == (old(bufpos) + n == old(buffer.Length))
      ensures !full ==> AsSession() == Fill(old(AsSession()), data[i..i + n])
      ensures full ==> AsSession() == Process(proto, handlers, Fill(old(AsSession()), data[i..i + n]))
    {
      ghost var before := AsSession();
      n := |data| - i;
      if buffer.Length - bufpos < n {
        n := buffer.Length - bufpos;
      }
      CopyIn(data[i..i + n]);
      assert AsSession() == Fill(before, data[i..i + n]);
      full := bufpos == buffer.Length;
      if full {
        ProcessFullBuffer();
      }
    }

    /**
      ReceiveChunk keeps port_data's loop on course for `target`, the state
      the whole loop ends in: a pass after which the loop stops has reached
      it, with the reader awaiting input.
    */
    method ReceiveStep(data: seq<byte>, i: nat, ghost target: Session) returns (n: nat, full: bool)
      requires Draining(data, i, target) && listening && (i < |data| || buffer.Length == 0)
      modifies this`state, this`curHeader, this`buffer, this`bufpos, this`agentCapabilities, this`trace, buffer
      ensures buffer == old(buffer) || fresh(buffer)
      ensures i + n <= |data|
      ensures !full ==> i + n == |data|
      ensures full ==> Draining(data, i + n, target) && (n > 0 || (old(buffer.Length) == 0 && buffer.Length != 0))
      ensures !full || !(i + n < |data| || buffer.Length == 0) ==> ReaderValid() && AsSession() == target
    {
      ghost var before := AsSession();
      n, full := ReceiveChunk(data, i);
      DrainStep(proto, handlers, before, data, i, n, target);
    }

    /**
      port_data: consume one chunk of any length. Each step copies as much as
      fits; a buffer that is still not full ends the call, a full one is
      processed. A zero-length buffer is processed even without input, so an
      empty body whose header ended the chunk is still dispatched.
    */
    method PortData(data: seq<byte>)
      requires Valid() && listening
      modifies this`state, this`curHeader, this`buffer, this`bufpos, this`agentCapabilities, this`trace, buffer
      ensures Valid() && (buffer == old(buffer) || fresh(buffer))
      ensures AsSession() == Drain(proto, handlers, old(AsSession()), data)
    {
      ghost var target := Drain(proto, handlers, AsSession(), data);
      var i := 0;
      while i < |data| || buffer.Length == 0
        invariant Draining(data, i, target)
        invariant buffer == old(buffer) || fresh(buffer)
        invariant SenderValid()
        invariant !(i < |data| || buffer.Length == 0) ==> ReaderValid() && AsSession() == target
        decreases 2 * (|data| - i) + (if buffer.Length == 0 then 1 else 0)
      {
        var n, full := ReceiveStep(data, i, target);
        i := i + n;
        if !full {
          return;
        }
      }
    }
  }

  // ---------------------------------------------------------------------------
  // Cancellation of outstanding writes

  /**
    A write issued by a session that has since been closed never runs its
    continuation when it completes.
  */
  method CompletionAfterClose(proto: ValidProtocol, cb: nat, userData: nat, ok: bool) returns (ran: bool)
    ensures !ran
  {
    var port := new Port(proto);
    port.Open(true);
    var buf := GetMsgBuffer(0);
    port.SendMessageAsync(proto.resetType, buf, UserCallback(cb, userData));
    var id := port.writesIssued - 1;
    ghost var token := port.cancellable;
    assert port.writes[id].token == token;
    port.Open(false);
    assert IsCancelled(port.writes[id].token, port.cancelledTokens);
    var before := |port.trace|;
    port.WriteCompleted(id, ok);
    ran := |port.trace| > before;
  }

  /**
    The same sequence with the check as written: the session's cancellable is
    NULL once it is closed, so the continuation runs after all.
  */
  method CompletionAfterCloseAsWritten(proto: ValidProtocol, cb: nat, userData: nat, ok: bool) returns (ran: bool)
    ensures ran
  {
    var port := new Port(proto);
    port.Open(true);
    var buf := GetMsgBuffer(0);
    port.SendMessageAsync(proto.resetType, buf, UserCallback(cb, userData));
    var id := port.writesIssued - 1;
    port.Open(false);
    var before := |port.trace|;
    port.WriteCompletedAsWritten(id, ok);
    ran := |port.trace| > before;
  }

  /**
    With the corrected check, a handshake write whose session has since been
    closed still releases its buffer when it completes.
  */
  method ReleaseAfterClose(proto: ValidProtocol, ok: bool) returns (freed: bool)
    ensures freed
  {
    var port := new Port(proto);
    port.Open(true);
    var id := port.writesIssued - 2;
    port.Open(false);
    var before := |port.trace|;
    port.WriteCompleted(id, ok);
    freed := |port.trace| == before + 1 && port.trace[before].BufferFreed?;
  }

  // ---------------------------------------------------------------------------
  // A session

  /**
    Two chunks arriving in turn: the session ends where the receive loop
    would end on the two as one.
  */
  method ReceiveTwo(port: Port, a: seq<byte>, b: seq<byte>)
    requires port.Valid() && port.listening && Awaiting(port.proto, port.AsSession())
    modifies port`state, port`curHeader, port`buffer, port`bufpos, port`agentCapabilities, port`trace, port.buffer
    ensures port.Valid()
    ensures port.AsSession() == Drain(port.proto, port.handlers, old(port.AsSession()), a + b)
  {
    ghost var s0 := port.AsSession();
    port.PortData(a);
    port.PortData(b);
    DrainChunks(port.proto, port.handlers, s0, a, b);
  }

  /** A port on which the channel has just opened: the handshake written, the reader idle. */
  method OpenedPort(proto: ValidProtocol) returns (port: Port, handshake: seq<Effect>)
    ensures fresh(port) && fresh(port.buffer) && port.Valid() && port.listening && port.handlers == [] && port.proto == proto
    ensures |handshake| == 2 && ResetFrame(proto, handshake[0]) && handshake[1] == CapabilitiesFrame(proto)
    ensures port.AsSession() == Session(Reader(WaitNewMessage, Header(0, 0), [], HEADER_SIZE), NO_CAPABILITIES, handshake)
  {
    port := new Port(proto);
    port.Open(true);
    handshake := port.trace;
  }

  /**
    The client's own sequence: the channel opens, then data arrives in two
    chunks. The session ends where the receive loop would end on the two
    chunks as one, read from the idle reader the handshake leaves.
  */
  method OpenThenData(proto: ValidProtocol, a: seq<byte>, b: seq<byte>) returns (port: Port, handshake: seq<Effect>)
    ensures |handshake| == 2 && ResetFrame(proto, handshake[0]) && handshake[1] == CapabilitiesFrame(proto)
    ensures port.Valid() && port.handlers == []
    ensures port.AsSession()
            == Drain(proto, [], Session(Reader(WaitNewMessage, Header(0, 0), [], HEADER_SIZE), NO_CAPABILITIES, handshake), a + b)
  {
    port, handshake := OpenedPort(proto);
    ReceiveTwo(port, a, b);
  }
}
