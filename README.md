# flexVDI client: guest agent port, modelled in Dafny

This project models two parts of the flexVDI client. The first is the port
session that talks to the flexVDI guest agent over a SPICE port channel
(`src/flexvdi-port.c`). The second is the masking of the password in a JSON
request body before it is logged (`hide_json_password` in
`src/client-request.c`).

The port session is modelled as a class `FlexVdiPort.Port`, with the fields
of the C `port` structure:

- the wait state;
- the current header;
- the receive buffer and its cursor, where `bufend` is the buffer's length;
- the agent's capability set;
- the connected flag and the cancellable.

It also holds the list of "agent connected" observers, and a `trace` of
everything the port does that can be seen from outside:

- frames written to the channel;
- observers called;
- print messages handed to the print collaborator;
- continuations run;
- buffers freed.

The receive path is proved against a pure reference reader in module
`PortSpec`:

- `Feed` reads the input one byte at a time.
- `Drain` reads it chunk by chunk, as the loop of `port_data` does.
- `DrainIsFeed` proves the two equal.
- `PortData` is proved to end in `Drain` of its input.
- `FeedAppend` proves that chunking does not matter.
- `FramesDelivered` proves that a stream of frames is dispatched frame by
  frame, in order.

The send path stamps the header in place in message blocks from
`getMsgBuffer` (module `MsgBuffers`). A pending asynchronous write is an
entry of `writes`. A GCancellable is an identity that may be cancelled.

`flexdp.h` is not part of this model. Module `Flexdp` supplies what the port
code relies on from it:

- a header is two 32-bit words, `size` then `type`, little-endian on the
  wire and on the host;
- the capability set is 128 bits, kept as its 16 bytes.

The protocol constants are the fields of a `Protocol` value: the message
type codes, `FLEXVDI_MAX_MESSAGE_LENGTH`, `FLEXVDI_MAX_MESSAGE_TYPE`,
`FLEXVDI_CAP_PRINTING` and the size of the reset message. Only the
distinctness and the bounds that `Protocol.Valid` states are assumed about
them. The per-type payload check of `unmarshallMessage` is the `accepts`
field of `Protocol`. A capabilities payload must be exactly 16 bytes.

`hide_json_password` is modelled as follows:

- `JsonPassword.HideJsonPassword` is a method whose three skipping and
  masking loops run over a duplicated array;
- it is proved equal to the pure `JsonPassword.Masked`;
- `Masked`'s properties are proved as lemmas.

A C string is modelled by its characters before the terminating NUL, so
`HideJsonPassword` requires a text without NUL characters.

## Model

| member | source | states |
|---|---|---|
| MsgBuffers.GetMsgBuffer | src/flexvdi-port.c:50-57 | The block is fresh and `size + HEADER_SIZE` long. The returned pointer is HEADER_SIZE bytes into it. The header's size field holds `size` truncated to 32 bits. |
| MsgBuffers.DeleteReleasesAllocation | src/flexvdi-port.c:60-62 | Deleting a pointer from getMsgBuffer releases its block from its first byte, HEADER_SIZE before the pointer. |
| Flexdp.DecodeEncodeHeader | src/flexvdi-port.c:224-225 | Reading back a header stamped on the wire gives the same size and type. |
| Flexdp.EncodeDecodeHeader | src/flexvdi-port.c:111-113 | Any eight header bytes are the encoding of the header decoded from them. |
| Flexdp.SupportsAfterSet | src/flexvdi-port.c:152-154 | Setting a capability adds exactly that capability to the supported set, and an index outside the set adds nothing. |
| Flexdp.OnlyCapability | src/flexvdi-port.c:152-154 | A set built from zero words plus one capability supports that capability and no other. |
| FlexVdiPort.WritePayload | src/flexvdi-port.c:152-154 | The payload is written after the header; the header bytes are unchanged. |
| FlexVdiPort.StampType | src/flexvdi-port.c:111 | Bytes 4 to 8 of the block hold the type; every other byte is unchanged. |
| FlexVdiPort.StampedFrame | src/flexvdi-port.c:108-114 | After stamping, the first `HEADER_SIZE + size` bytes of the block are the encoded header `(size, type)` followed by the payload. |
| FlexVdiPort.Port.constructor | src/flexvdi-port.c:25-45 | The zero-initialised static `port` and the empty observer list: not listening, not connected, no cancellable, a zero header awaited, no pending write, nothing in the trace, and the port invariant. |
| FlexVdiPort.Port.SendMessageAsync | src/flexvdi-port.c:106-116 | Stamps the type into the block, and writes the header with the stored size followed by that many payload bytes. Records a pending write under the session's current cancellable with the caller's continuation. Keeps the port invariant. |
| FlexVdiPort.Port.SendMessage | src/flexvdi-port.c:101-103 | As `SendMessageAsync`, with the continuation that deletes the buffer. |
| FlexVdiPort.Port.WriteCompleted | src/flexvdi-port.c:91-98 | Corrected cancellation gate: a caller's callback runs exactly when the cancellable the write was issued with has not been cancelled. sendMessage's continuation always runs, so the buffer is released on every path. The wrapper is released either way. |
| FlexVdiPort.Port.WriteCompletedAsWritten | src/flexvdi-port.c:91-98 | The gate as written: it tests the session's cancellable at completion time. The continuation runs exactly when that one is NULL or not cancelled. |
| FlexVdiPort.Port.PreparePortBuffer | src/flexvdi-port.c:124-128 | The receive buffer is a new one of exactly `size` bytes, with the cursor at its start. |
| FlexVdiPort.Port.Open | src/flexvdi-port.c:133-166 | Opening: connected, a new uncancelled cancellable, every capability cleared, and a header-sized empty buffer awaiting a header. Then a reset frame and a capabilities frame announcing printing alone are written, in that order. Closing: disconnected, the cancellable cancelled and dropped, and nothing else changed. `IsConnected` answers whether the port was opened. Both handshake writes release their buffer when they complete. The new receive buffer is fresh. |
| FlexVdiPort.Port.Connect | src/flexvdi-port.c:136-156 | The open branch: the session state listed for `Open`, with a fresh receive buffer, then the two handshake frames. |
| FlexVdiPort.Port.StartSession | src/flexvdi-port.c:137-145 | The receive loop is connected and the agent is connected. A fresh cancellable is taken and the capability set is zeroed. The reader awaits a header in a fresh, empty, header-sized buffer. |
| FlexVdiPort.Port.NewCancellable | src/flexvdi-port.c:141 | The session's cancellable is a new identity that nobody has cancelled. |
| FlexVdiPort.Port.SendHandshake | src/flexvdi-port.c:146-156 | Two writes are appended to the trace: a reset frame, then the capabilities frame. Both are pending under the session's cancellable, and each releases its buffer when it completes. |
| FlexVdiPort.Port.SendReset | src/flexvdi-port.c:146-149 | One frame is written. Its header is `(sizeof reset message, FLEXVDI_RESET)` and its length is the header plus that size. |
| FlexVdiPort.Port.SendCapabilities | src/flexvdi-port.c:150-156 | One frame is written: the capabilities header and 16 bytes in which only `FLEXVDI_CAP_PRINTING` is set. |
| FlexVdiPort.Port.Disconnect | src/flexvdi-port.c:157-165 | The receive loop is disconnected and the agent is not connected. The current cancellable, if any, joins the cancelled ones, and the session has none. |
| FlexVdiPort.Port.IsConnected | src/flexvdi-port.c:255-257 | The answer is the connected flag. `Open` proves it true after opening and false after closing. |
| FlexVdiPort.Port.SupportsCapability | src/flexvdi-port.c:169-171 | The answer comes from the cached set, whether or not the agent is connected. It is true only for an index inside the set. |
| FlexVdiPort.Port.HandleCapabilitiesMsg | src/flexvdi-port.c:174-184 | The capability set becomes the whole payload. Then every observer is notified once, from the head of the list. |
| FlexVdiPort.Port.HandleMessage | src/flexvdi-port.c:187-199 | The new capability set and the appended effects are those of the reference `PortSpec.HandleMessage`. |
| PortSpec.HandleMessage | src/flexvdi-port.c:187-199 | The reference dispatch. A capabilities message makes its payload the whole set and notifies every observer. Any other type keeps the set and has at most one effect. |
| PortSpec.CapabilitiesReplaced | src/flexvdi-port.c:174-184 | After a capabilities message, a capability is supported exactly when the message carries it, whatever was supported before. Every observer is notified. |
| PortSpec.PrintMessagesForwarded | src/flexvdi-port.c:192-197 | A print job or print job data message is handed to the print collaborator with its payload, and the capability set stays as it was. |
| PortSpec.OtherTypesDropped | src/flexvdi-port.c:187-199 | A type other than capabilities, print job and print job data leaves the set as it was and has no effect. |
| FlexVdiPort.Port.OnAgentConnected | src/flexvdi-port.c:260-265 | The new observer is placed at the head of the list. |
| PortSpec.NewestObserverFirst | src/flexvdi-port.c:260-265 | With the observer prepended, it is notified first and then the older ones in their order. |
| PortSpec.NotificationsExtend | src/flexvdi-port.c:180-183 | Walking the list one observer further appends exactly that observer's notification. |
| FlexVdiPort.Port.SharePrinter | src/flexvdi-port.c:273-280 | Succeeds exactly when the agent is connected and the collaborator succeeds. The collaborator is called only while connected. |
| FlexVdiPort.Port.UnsharePrinter | src/flexvdi-port.c:283-290 | As `SharePrinter`. |
| FlexVdiPort.Port.PrepareOneByte | src/flexvdi-port.c:202-208 | The buffer's first seven bytes are the old bytes 1 to 7, and the cursor sits after them. |
| FlexVdiPort.Port.CopyIn | src/flexvdi-port.c:215-220 | The chunk is appended after the cursor, and the cursor advances by its length. |
| FlexVdiPort.Port.ProcessFullBuffer | src/flexvdi-port.c:222-250 | The reader's new state is the reference `PortSpec.Process` of the full buffer. |
| PortSpec.Process | src/flexvdi-port.c:222-250 | Processing a full buffer leaves a reader at the loop head, with the trace only extended. |
| FlexVdiPort.Port.ReceiveChunk | src/flexvdi-port.c:215-250 | One pass of the loop body takes `min(room, input left)` bytes. A short buffer only stores them; a full one is also processed. |
| FlexVdiPort.Port.ReceiveStep | src/flexvdi-port.c:213-250 | One pass keeps the loop on course for its final state, and a pass after which the loop stops has reached it. |
| FlexVdiPort.Port.PortData | src/flexvdi-port.c:211-252 | The port ends in the chunk-by-chunk reading `Drain` of the input, awaiting more input, with the port invariant kept. The receive buffer is the caller's or a fresh one. |
| PortSpec.Drain | src/flexvdi-port.c:211-252 | The loop as written always ends with the reader awaiting input. |
| PortSpec.DrainStep | src/flexvdi-port.c:213-221 | Taking the next chunk keeps the loop's final state. A pass that leaves the buffer short, or one that fills it at the end of input while a non-empty buffer follows, is that final state. |
| PortSpec.DrainIsFeed | src/flexvdi-port.c:211-252 | The chunk-by-chunk loop reads any input exactly as the byte-at-a-time reader does, after any pending empty body is handled. |
| PortSpec.DrainChunks | src/flexvdi-port.c:211-252 | Two calls of the receive loop on two chunks end where one call on their concatenation does. |
| PortSpec.FeedAppend | src/flexvdi-port.c:211-252 | Reading two chunks in turn equals reading their concatenation. |
| PortSpec.FeedWithinBuffer | src/flexvdi-port.c:221 | Bytes that do not fill the buffer are only stored. |
| PortSpec.FeedFillsBuffer | src/flexvdi-port.c:215-222 | Bytes that exactly fill the buffer are stored and the full buffer processed. |
| PortSpec.BadHeaderCostsOneByte | src/flexvdi-port.c:226-232 | An oversized header or one of unknown type costs exactly its oldest byte. The reader still awaits a header, and nothing is dispatched. |
| PortSpec.GoodHeaderAwaitsBody | src/flexvdi-port.c:233-236 | An acceptable header is stored and a buffer of its size is awaited. A header announcing an empty body has that body handled in the same call. |
| PortSpec.BodyReturnsToHeader | src/flexvdi-port.c:238-249 | A completed body is dispatched exactly when the payload check passes. In both cases the reader goes back to a header-sized buffer. |
| PortSpec.FrameDelivered | src/flexvdi-port.c:211-252 | A frame read from an idle reader is dispatched once, if its payload passes, and leaves the reader idle. |
| PortSpec.FirstFrame | src/flexvdi-port.c:211-252 | The first frame of a stream is read as a frame on its own, and the rest is read from the idle reader it leaves. |
| PortSpec.FramesDelivered | src/flexvdi-port.c:211-252 | A stream of valid frames ends in an idle reader. Its capability set and effects are those of dispatching the frames one by one, in order. |
| FlexVdiPort.CompletionAfterClose | src/flexvdi-port.c:91-98 | With the corrected gate, a write with a caller's callback, issued before the channel closes and completing after, does not run that callback. |
| FlexVdiPort.ReleaseAfterClose | src/flexvdi-port.c:80-98 | With the corrected gate, a handshake write that completes after the channel closed still releases its buffer. |
| FlexVdiPort.OpenedPort | src/flexvdi-port.c:133-156 | A new port on which the channel opened: the reader idle with zero capabilities, the reset and capabilities frames written, and the receive buffer fresh. |
| FlexVdiPort.ReceiveTwo | src/flexvdi-port.c:211-252 | Two chunks received in turn end where the receive loop ends on their concatenation. |
| FlexVdiPort.OpenThenData | src/flexvdi-port.c:133-166 | Opening the channel and then receiving two chunks ends in the session the receive loop reaches on their concatenation, read from the idle reader after the handshake frames. |
| FlexVdiPort.CompletionAfterCloseAsWritten | src/flexvdi-port.c:162-164 | With the gate as written, the same sequence runs the continuation. |
| JsonPassword.Find | src/client-request.c:31 | The first index where the field name occurs, or none when it does not occur. |
| JsonPassword.SkipTo | src/client-request.c:34-35 | The first index at or after the start holding the character, or the end of the text. No character in between is that character. |
| JsonPassword.Skip | src/client-request.c:34-35 | The skipping loop stops where `SkipTo` does. |
| JsonPassword.MaskValue | src/client-request.c:36-39 | The masking loop overwrites with '*' from the start up to the next '"' or the end. Every other character is kept. |
| JsonPassword.Masked | src/client-request.c:28-42 | Same length as the input. Only characters inside `MaskedSpan` differ, and those are '*'. |
| JsonPassword.HideJsonPassword | src/client-request.c:28-42 | The returned duplicate is the masked text. |
| JsonPassword.NoFieldUnchanged | src/client-request.c:30-32 | Without the field name, the text is returned as it is. |
| JsonPassword.NoValueUnchanged | src/client-request.c:33-36 | With the field name present but no ':' after it followed by a '"', the text is returned as it is. |
| JsonPassword.SpanIsQuotedValue | src/client-request.c:33-39 | A non-empty masked span lies after the first field name. A ':' lies in between. The span starts right after a '"', contains no '"', and ends at a '"' or at the end of the text. |
| JsonPassword.PrefixKept | src/client-request.c:31 | The text up to the end of the first field name is kept, whatever follows. |
| JsonPassword.FindKept | src/client-request.c:31 | After masking a non-empty span, the field name is first found where it was before. |
| JsonPassword.SpanKept | src/client-request.c:33-39 | After masking a non-empty span, the masked text has the same span. |
| JsonPassword.MaskIdempotent | src/client-request.c:28-42 | Masking a masked text changes nothing. |

## Left out

- The channel is not modelled: no SPICE port channel, no GSignal connection, no GObject property. Writes are appended to `trace`, completions are calls of `WriteCompleted`, and `port_data` is called directly.
- Logging (`g_debug`, `g_info`, `g_warning`) is not modelled.
- `flexvdi_get_printer_list` only forwards to the print collaborator, so it is not modelled.
- The collaborators are not modelled beyond their observable call: `handlePrintJob`, `handlePrintJobData`, `flexvdiSpiceSharePrinter`, `flexvdiSpiceUnsharePrinter` and the observers' callbacks. Their answers, where they have one, are parameters.
- `flexdp.h` is not part of this model. Its marshalling routines are taken to leave the bytes as they are, which holds on a little-endian host. Its constants are parameters constrained by `Protocol.Valid`.
- SendReset: the payload of the reset message is whatever the allocation held, so only the frame's header and length are stated.
- MsgBuffers.GetMsgBuffer: `g_malloc` aborts rather than return NULL, so the NULL branch of getMsgBuffer is not taken. The header bytes other than the size field are left unspecified, as `g_malloc` leaves them.
- Memory release is not tracked: the `g_free` of old receive buffers in preparePortBuffer, and the buffer that `port.buffer = NULL` at line 142 leaks on a reopen. `AllocationStart` only states which address `deleteMsgBuffer` releases.
- The `channel` field is not modelled, because it only carries the channel handle to the write call.
- A `size_t` size stored into the 32-bit header field is truncated (`GetMsgBuffer`); other `size_t`/`int` widths are unbounded integers.
- The model follows the code in these points:
  - The loop's extra pass is taken when the buffer has zero length, not when it is full.
  - Observers run newest first, because registration prepends them.
  - `flexvdi_agent_supports_capability` answers from the cached set even when the agent is disconnected.
  - Sending while disconnected is not refused.
  - A message buffer's header region is not zeroed.
  - Closing the channel does not free the receive buffer.

## Findings

| source | as written | input that shows it | evidently intended | confidence | as-written member | corrected member |
|---|---|---|---|---|---|---|
| src/flexvdi-port.c:94 | sendMessageAsyncCb tests `port.cancellable`, the session's cancellable at completion time. Closing the channel sets it to NULL (lines 162-164), and `g_cancellable_is_cancelled(NULL)` is FALSE. | Open the channel, send a message with a caller's continuation, close the channel, then let the write complete: the continuation runs. | A caller's continuation of a write pending when the channel closes is not invoked, so the gate should test the cancellable the write was issued with. sendMessage's own continuation still runs, because the buffer is released after every write. | not executed | FlexVdiPort.CompletionAfterCloseAsWritten | FlexVdiPort.CompletionAfterClose |
