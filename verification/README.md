# ISO 8583 connection framing (example-3), modelled in Dafny

This project models the length-prefixed framing layer of the ISO 8583
example server in `example-3`. It has three parts.

- **Length header** (`specs.go`). `MsgLenReader` and `MsgLenWriter` read and
  write a two-byte big-endian header. The header carries the payload length
  and does not count itself.
  - Module `LengthHeader` (`length_header.dfy`) models this as `Encode` and
    `Decode`, plus the reader and the writer with their error paths. A failed
    read or write comes back wrapped as "reading header failed" or "writing
    header failed".
  - The readers and writers are values: a `Transport` says how the next read
    behaves, and a `Sink` says how many bytes a write accepts.
- **Frames** (`framing.dfy`, module `Framing`). A frame is a header followed
  by exactly the declared number of payload bytes.
  - `Frame` is what the send path writes.
  - `ReadFrame` is one pass of a read loop over a buffered reader.
  - `SplitFrames` is the reference reading of a whole stream. It is proved
    lossless and unique, so `SplitFrames(FrameAll(ps))` gives back `ps`.
  - `StripSubHeader` is the dispatch step's `rawMsg[headerSize:]`.
- **Connections**.
  - `ConnectionHandler` (`connection_handler.dfy`, module `Handler`) is a
    class with these fields:
    - the buffered reader's position over what the peer sent;
    - `deadlineExceededCount`;
    - the loop's last error;
    - the frames sent on the request channel;
    - the bytes written to the connection;
    - `isClosing`;
    - the shutdown broadcast;
    - a count of stream closes.

    It has `Close` (a test-and-set), `HandleConnectionError`,
    `ReadIteration`, `ReadLoop`, `RequestHandler` and `Send`. The loop is
    proved against the pure `RunReadLoop`, and the lemmas about the loop are
    proved on that function.
  - `Connection` (`connection.dfy`, module `Conn`) is the simpler connection
    type. It has `Close`, `ReadIteration`, `ReadLoop` and `RequestHandler`,
    and its loop is specified by the pure `ConnRun`.

Errors are modelled as follows. A cause (`DeadlineExceeded`, `EndOfStream`,
`Broken`) is wrapped with context strings. `Is` is the `errors.Is` test
through the wrapping (`errors.dfy`).

The goroutines are modelled as methods that are called one after another on
the same object. The transport's behaviour on each header read is a
parameter of that read: it either delivers the peer's bytes or fails with a
cause. A read-deadline expiry is `Failing(DeadlineExceeded)`. The payload
read that follows a good header always gets the bytes the peer sent.

Four behaviours of the code that a reader might not expect, modelled as
written:

- `ClosedError` is declared (connection_handler.go:21), but a send on a
  closing handler does not return it: `sendHandler` only logs and returns
  (connection_handler.go:218-223). The model's `Send` reports
  `HandlerClosing` and writes nothing.
- `ConnectionHandler.readLoop` ends on any header error other than a
  deadline expiry (connection_handler.go:157-159). The model stops with
  `HeaderFailed`.
- `Connection.Close` closes `shutdownNotifier` every time it runs
  (connection.go:62), so a second call panics. `Conn.Connection.Close`
  therefore requires that no shutdown has happened yet.
- In `Connection.readLoop`, `break` leaves only the `select`
  (connection.go:102, 109). So a failed read does not end the loop, and the
  loop ends only on shutdown. `Conn.Connection.ReadLoop` and
  `Conn.EndOfStreamSpins` state this behaviour.

## Model

| member | source | states |
|---|---|---|
| LengthHeader.Decode | example-3/specs.go:184 | the length a header carries is below 65536 |
| LengthHeader.DecodeBigEndian | example-3/specs_test.go:21-28 | the first header byte is the high-order byte of the length and the second the low-order one |
| LengthHeader.Encode | example-3/specs.go:187-189 | the header for a length below 65536 is two bytes and decodes back to that length |
| LengthHeader.EncodeDecode | example-3/specs.go:176-197 | every two-byte header is the encoding of the length it decodes to, so the header codec is a bijection |
| LengthHeader.EncodeInjective | example-3/specs.go:187-189 | two lengths get the same header exactly when they are equal |
| LengthHeader.TestVectors | example-3/specs_test.go:17-69 | `01 13` is 275 and `00 9d` is 157, both ways; the reader returns them with no error; the writer emits those bytes and reports 2 written |
| LengthHeader.MsgLenReader | example-3/specs.go:176-185 | no error exactly when the transport delivers and two bytes are there, and then the length is the decoded header; on error the length is 0 and the error is wrapped "reading header failed" and is a deadline error exactly when the transport's failure was one |
| LengthHeader.SinkWrite | example-3/connection_handler.go:246 | a write reports a short count exactly when it reports an error, and never more bytes than it was given |
| LengthHeader.MsgLenWriter | example-3/specs.go:187-197 | success exactly when the sink takes two bytes, and then 2 written and the header decodes to the length; on failure the sink was a cut-off one, the count is its room (fewer than 2 bytes), and its error comes back wrapped "writing header failed"; the bytes out are always the header's prefix of the reported count |
| LengthHeader.WriterReaderRoundTrip | example-3/specs.go:176-197 | the reader recovers every length the writer wrote, whatever follows the header |
| Framing.Frame | example-3/connection_handler.go:233-240 | a frame is 2 + n bytes, its header decodes to n and its tail is the payload |
| Framing.SplitFramesLossless | example-3/connection_handler.go:164-173 | reading a stream as frames loses and reorders nothing, and what is left is not a complete frame |
| Framing.SplitUnique | example-3/connection_handler.go:143-173 | any way of writing a stream as whole frames then an incomplete remainder is the one the reading finds |
| Framing.FrameAllRoundTrip | example-3/connection_handler.go:234-240 | reading the concatenated frames of any payloads gives back exactly those payloads with nothing left over |
| Framing.SplitAfterPrefix | example-3/connection_handler.go:164-173 | after some whole frames have been consumed, the rest of the stream holds exactly the remaining frames |
| Framing.ReadFrame | example-3/connection_handler.go:143-169 | a frame comes out exactly when the transport delivers and a complete frame is there, and it is exactly the bytes of its frame; the header fails exactly when the transport fails or under 2 bytes are left; a short payload consumes the rest of the stream and reports end of stream |
| Framing.ReadFrameAgreesWithSplit | example-3/connection.go:99-114 | a frame read is the next frame of the reference reading, with the same remainder after it, and when the transport delivers and no frame is read the reference reading finds none either |
| Framing.StripSubHeader | example-3/connection_handler.go:193 | the dispatched body is the frame minus its first `headerSize` bytes, which precede it unchanged |
| Framing.SubHeaderInverse | example-3/connection_handler.go:193 | for every sub-header size, stripping a frame whose payload is a sub-header of that size then a message gives back the message, and the dropped prefix is the sub-header |
| Framing.Spec1Dispatch | example-3/specs.go:18 | with the 12-byte `Spec1HeaderSize` sub-header every caller passes, a frame of sub-header then message hands the decoder exactly that message |
| Handler.ReadStep | example-3/connection_handler.go:141-173 | one pass of the read loop when no shutdown is pending; specified by `Handler.ReadStepFacts` and `Handler.ReadStepByHeader` |
| Handler.RunReadLoop | example-3/connection_handler.go:133-176 | the read loop over a run of header reads; specified by `Handler.ConsecutiveTimeouts`, `Handler.RunForwardsInOrder`, `Handler.RunForwardsAll` and `Handler.RunEndsWithError`, and the effect `Handler.ConnectionHandler.ReadLoop` is proved to have |
| Handler.ReadStepFacts | example-3/connection_handler.go:141-173 | a pass forwards a frame exactly when the transport delivers a complete one; an expiry within budget retries with the counter one higher; the first expiry over budget stops with the counter one higher and the reader unmoved; a short payload stops with the counter reset |
| Handler.ReadStepByHeader | example-3/connection_handler.go:143-173 | a pass, taken in the loop's order, reads the header first: a header error either counts an expiry (retry or time out) or stops the loop with the reader where the header read left it; after a good header the counter is reset and the pass stops on a short payload or forwards exactly the declared bytes |
| Handler.ConsecutiveTimeouts | example-3/connection_handler.go:145-155 | over consecutive expiries nothing is read or forwarded, the counter grows by one each time, and the loop stops exactly when 30 < count × 5, on the seventh |
| Handler.SeventhTimeoutStops | example-3/connection_handler.go:24-27 | from a reset counter the loop survives six expiries in a row and stops with a timeout on the seventh |
| Handler.RunForwardsInOrder | example-3/connection_handler.go:164-173 | whatever the header reads meet, the frames forwarded are a prefix of the stream's frames, in stream order |
| Handler.RunForwardsAll | example-3/connection_handler.go:133-177 | when every read delivers, every complete frame is forwarded, the reader ends at the end of the stream and the loop stops on the header or on the payload according to the remainder |
| Handler.RoundTrip | example-3/connection_handler.go:133-177 | a peer that sends the frames of `ps` and closes gets exactly `ps` forwarded, and the loop ends on the end-of-stream header error |
| Handler.RunEndsWithError | example-3/connection_handler.go:157-176 | when every read delivers, the error the loop hands on after a header failure is the wrapped end of stream |
| Handler.ConnectionHandler.constructor | example-3/connection_handler.go:54-82 | a new handler has read nothing, forwarded nothing, and is not closing |
| Handler.ConnectionHandler.Close | example-3/connection_handler.go:88-108 | only the first call broadcasts shutdown and closes the stream, so the stream is closed at most once; later calls return no error; a close failure is wrapped "connection close error" |
| Handler.ConnectionHandler.HandleConnectionError | example-3/connection_handler.go:253-263 | an error starts a close unless there is none or the handler is already closing; otherwise nothing changes |
| Handler.ConnectionHandler.ReadIteration | example-3/connection_handler.go:135-173 | a pending shutdown closes the request channel and ends the loop; otherwise the state moves exactly as `ReadStep` says, and the reader has consumed exactly the frames forwarded while the loop runs |
| Handler.ConnectionHandler.ReadLoop | example-3/connection_handler.go:122-177 | the frames, reader position, counter, last error and exit are those of `RunReadLoop`; a stop other than shutdown leaves the handler closed with the stream closed once; with a shutdown pending, the first pass closes `reqCh` and the reader, counter, last error, frames and stream closes stay as they were |
| Handler.ConnectionHandler.RequestHandler | example-3/connection_handler.go:191-195 | the payload decoder is handed the frame minus its sub-header |
| Handler.ConnectionHandler.Send | example-3/connection_handler.go:212-251 | nothing is written while closing or when packing fails; otherwise the header of the packed length and the packed bytes go out as one write, entirely on success, or on a short write exactly the prefix of the frame that the connection took (its room) |
| Conn.ConnRun | example-3/connection.go:94-116 | the read loop over a run of header reads when no shutdown is pending; specified by `Conn.ConnRunWithin`, `Conn.ConnRunInOrder`, `Conn.EndOfStreamSpins` and `Conn.ConnRunDeliversAll`, and the effect `Conn.Connection.ReadLoop` is proved to have |
| Conn.ConnRunWithin | example-3/connection.go:92-110 | the buffered reader never moves back and never runs past the end of what the peer sent |
| Conn.ConnRunInOrder | example-3/connection.go:99-114 | whatever the header reads meet, the frames forwarded are a prefix of the stream's frames, in stream order |
| Conn.EndOfStreamSpins | example-3/connection.go:100-103 | once the reader is at the end of the stream every pass fails on the header and nothing more is forwarded |
| Conn.ConnRunDeliversAll | example-3/connection.go:94-117 | when every read delivers and there are enough of them, every complete frame is forwarded and the reader ends at the end of the stream |
| Conn.ConnRoundTrip | example-3/connection.go:94-117 | a peer that sends the frames of `ps` gets exactly `ps` forwarded |
| Conn.Connection.constructor | example-3/connection.go:38-59 | a new connection has read and forwarded nothing and is not shut down |
| Conn.Connection.Close | example-3/connection.go:61-72 | broadcasts shutdown and closes the stream once; a close failure is wrapped "connection close error" |
| Conn.Connection.ReadIteration | example-3/connection.go:95-115 | a pending shutdown returns from the loop; otherwise the reader moves exactly as `ReadFrame` says and a frame read is forwarded, while a failed read forwards nothing and does not end the loop |
| Conn.Connection.ReadLoop | example-3/connection.go:84-117 | without a shutdown the loop never returns and its effect is `ConnRun`'s; with one pending, the first pass returns |
| Conn.Connection.RequestHandler | example-3/connection.go:132-136 | the payload decoder is handed the frame minus its sub-header |

## Left out

- Goroutines, channels, `select`, the mutex and the wait group are not modelled. Each loop pass, close and send is a method called in sequence on one object, and `Close` runs as one atomic step.
- Real time and socket deadlines are not modelled. A read-deadline expiry is an abstract transport failure on the header read. Only the counter arithmetic is kept, in whole seconds.
- The ISO 8583 codec (`NewMessage`, `Unpack`, `Pack`) and the `Spec1` field table are not modelled. Packing is a parameter of `Send` (`None` when it fails). The decoder's input is recorded, not decoded.
- `requestListener`, `sendLoop` and `Connection.requestListener` only move values between channels and goroutines, so they are not modelled. A nil message after the request channel closes is not modelled; `RequestHandler` requires a frame of at least `headerSize` bytes instead of modelling the slice panic.
- Handler.ConnectionHandler.Send: requires a packed length below 65536. The header library's behaviour for larger lengths is not part of this model, so the header-encoding failure branch is not reached.
- Framing.ReadFrame: the transport is consulted only for the header read. The payload read (`io.ReadFull`, connection_handler.go:165, connection.go:106) always gets the bytes the peer sent, so a deadline or reset while payload bytes are still arriving is not modelled. A `PayloadError` arises only when the stream ends inside a frame.
- Handler.RunForwardsAll, Handler.RoundTrip: because the payload read never fails while bytes are on the way, the handler always forwards a complete frame. In the source a payload read that fails drops that frame and ends the loop.
- Conn.ConnRunInOrder: the in-order guarantee covers every outcome of the header reads only. In the source a failed payload read leaves the buffered reader inside a frame, and the next pass reads payload bytes as a header. That misalignment is not modelled.
- LengthHeader.MsgLenReader: the header library (`network.Binary2BytesHeader`) is not part of this model. The model assumes its `ReadFrom` takes whatever header bytes there are (none when the transport fails, all of them at the end of the stream). It also assumes the error it returns still lets `errors.Is` find the transport's cause. The "deadline error exactly when the transport's failure was one" clause rests on that. A partial header consumed before a deadline is not modelled.
- LengthHeader.MsgLenWriter: the model assumes the header library's `WriteTo` makes one `Write` of both header bytes and passes back the sink's count and error. The clauses on the failure count (the sink's room, below 2) and on the bytes out being the header's prefix rest on that.
- Conn.Connection.ReadLoop: the error of a failed pass is not kept, because the loop never uses it.
- Connection ids (`uuid`), logging, `Start`, `Done` and `run` are not modelled.
- `server.go`, `client.go`, `main.go` and `types.go` (listening, dialing, signal handling, printing) are not part of this model.
