/**
 * `ConnectionHandler` (connection_handler.go): one live connection with a
 * read loop, a per-frame dispatch, a send path and an idempotent close.
 * The goroutines become methods called one after another on the same
 * object; the read loop's behaviour over a run of reads is specified by the
 * pure `RunReadLoop`, about which the lemmas below are proved.
 */
module Handler {
  import opened Wrappers
  import opened Errors
  import opened LengthHeader
  import opened Framing

  /** `connReadTimeout` and `connTimeout`, in whole seconds. */
  const ConnReadTimeout: nat := 5
  const ConnTimeout: nat := 30

  /** `connTimeout < elapsed`: `count` consecutive expiries exceed the connection's budget. */
  predicate TimeoutExceeded(count: nat) {
    ConnTimeout < count * ConnReadTimeout
  }

  /** Why the read loop left its `for`. */
  datatype Exit =
    | Shutdown       // the shutdown broadcast was observed between frames
    | TimedOut       // too many consecutive read-deadline expiries
    | HeaderFailed   // any other header read error, end of stream included
    | PayloadFailed  // the payload was shorter than its header declared

  /** One pass through the read loop's body when no shutdown is pending. */
  datatype Step =
    | Forward(frame: Payload, cursor: nat)              // a frame went to the request channel
    | Retry(count: nat, err: Error)                     // the header read hit its deadline, within budget
    | Stop(exit: Exit, cursor: nat, count: nat, err: Error)

  /**
   * One pass of the read loop: the deadline counter grows on an expiry and
   * the loop gives up once it is over budget; any other header error or a
   * short payload ends the loop; a header read that succeeds resets the
   * counter and the frame is forwarded.
   */
  function ReadStep(data: seq<byte>, cursor: nat, count: nat, t: Transport): Step
    requires cursor <= |data|
  {
    match ReadFrame(data, cursor, t)
    case HeaderError(e, next) =>
      if Is(e, DeadlineExceeded) then
        var elapsed := count + 1;
        if TimeoutExceeded(elapsed) then Stop(TimedOut, cursor, elapsed, e) else Retry(elapsed, e)
      else
        Stop(HeaderFailed, next, count, e)
    case PayloadError(e, next) => Stop(PayloadFailed, next, 0, e)
    case Got(f, next) => Forward(f, next)
  }

  /**
   * What a pass does: a frame is forwarded exactly when the transport
   * delivers a complete one; an expiry within budget retries with the counter
   * one higher; the first expiry over budget stops with the counter one
   * higher and the reader unmoved; a short payload stops with the counter
   * reset; the reader never runs past the end of the stream.
   */
  lemma ReadStepFacts(data: seq<byte>, cursor: nat, count: nat, t: Transport)
    requires cursor <= |data|
    ensures var r := ReadStep(data, cursor, count, t);
            && (r.Forward? <==> t == Flowing && !Incomplete(data[cursor..]))
            && (r.Forward? ==> cursor < r.cursor <= |data| && data[cursor..r.cursor] == Frame(r.frame))
            && (r.Retry? <==> t == Failing(DeadlineExceeded) && !TimeoutExceeded(count + 1))
            && (r.Retry? ==> r.count == count + 1 && Is(r.err, DeadlineExceeded))
            && (r.Stop? ==> r.exit != Shutdown && r.cursor <= |data|)
            && ((r.Stop? && r.exit == TimedOut) <==> t == Failing(DeadlineExceeded) && TimeoutExceeded(count + 1))
            && (r.Stop? && r.exit == TimedOut ==> r.count == count + 1 && r.cursor == cursor)
            && (r.Stop? && r.exit == PayloadFailed ==> r.count == 0)
  {
  }

  /** A pass in the order the loop takes it: the header read first, then the payload. */
  lemma ReadStepByHeader(data: seq<byte>, cursor: nat, count: nat, t: Transport)
    requires cursor <= |data|
    ensures var h := MsgLenReader(data[cursor..], t);
            var s := ReadStep(data, cursor, count, t);
            var start := cursor + HeaderLen;
            if h.err.Some? then
              if Is(h.err.value, DeadlineExceeded) then
                if TimeoutExceeded(count + 1) then s == Stop(TimedOut, cursor, count + 1, h.err.value)
                else s == Retry(count + 1, h.err.value)
              else s == Stop(HeaderFailed, cursor + h.consumed, count, h.err.value)
            else if |data| - start < h.length then s == Stop(PayloadFailed, |data|, 0, Plain(EndOfStream))
            else
              && start + h.length <= |data| && s == Forward(data[start..start + h.length], start + h.length)
              && data[cursor..start + h.length] == Frame(data[start..start + h.length])
  {
  }

  /** Consuming one more frame keeps the consumed bytes equal to the frames forwarded. */
  lemma ConsumeFrame(data: seq<byte>, cursor: nat, next: nat, ps: seq<Payload>, f: Payload)
    requires cursor <= next <= |data| && data[..cursor] == FrameAll(ps) && data[cursor..next] == Frame(f)
    ensures data[..next] == FrameAll(ps + [f])
  {
    FrameAllAppend(ps, f);
    assert data[..next] == data[..cursor] + data[cursor..next];
  }

  /**
   * The read loop over a run of header reads: the frames it forwards, where
   * the reader and the counter end up, the loop's last `err`, and why it
   * stopped (`None` if it is still running after the last read).
   */
  datatype Run = Run(frames: seq<Payload>, cursor: nat, count: nat, err: Option<Error>, exit: Option<Exit>)

  function RunReadLoop(data: seq<byte>, cursor: nat, count: nat, err: Option<Error>, ts: seq<Transport>): Run
    requires cursor <= |data|
    decreases |ts|
  {
    if ts == [] then Run([], cursor, count, err, None)
    else
      match ReadStep(data, cursor, count, ts[0])
      case Forward(f, next) =>
        var r := RunReadLoop(data, next, 0, None, ts[1..]);
        r.(frames := [f] + r.frames)
      case Retry(k, e) => RunReadLoop(data, cursor, k, Some(e), ts[1..])
      case Stop(x, next, k, e) => Run([], next, k, Some(e), Some(x))
  }

  /** `k` header reads in a row that all hit the read deadline. */
  function Expiries(k: nat): (ts: seq<Transport>)
    ensures |ts| == k && forall i :: 0 <= i < k ==> ts[i] == Failing(DeadlineExceeded)
  {
    seq(k, _ => Failing(DeadlineExceeded))
  }

  /**
   * Consecutive deadline expiries: the loop keeps going while the count stays
   * within budget and stops with `TimedOut` at the first expiry past it;
   * nothing is read or forwarded meanwhile.
   */
  lemma {:induction false} ConsecutiveTimeouts(data: seq<byte>, cursor: nat, count: nat, err: Option<Error>, k: nat)
    requires cursor <= |data| && !TimeoutExceeded(count)
    decreases k
    ensures var r := RunReadLoop(data, cursor, count, err, Expiries(k));
            && r.frames == [] && r.cursor == cursor
            && (r.exit == Some(TimedOut) <==> TimeoutExceeded(count + k))
            && (r.exit.None? ==> r.count == count + k)
            && (r.exit.Some? ==> r.exit == Some(TimedOut) && r.count == 7)
  {
    var ts := Expiries(k);
    if k > 0 {
      assert ts[0] == Failing(DeadlineExceeded);
      assert ts[1..] == Expiries(k - 1);
      if !TimeoutExceeded(count + 1) {
        ConsecutiveTimeouts(data, cursor, count + 1, Some(Wrapped(ReadContext, Plain(DeadlineExceeded))), k - 1);
      }
    }
  }

  /** With the counter at zero, six expiries in a row are tolerated and the seventh ends the loop. */
  lemma SeventhTimeoutStops(data: seq<byte>, cursor: nat)
    requires cursor <= |data|
    ensures RunReadLoop(data, cursor, 0, None, Expiries(6)).exit.None?
    ensures RunReadLoop(data, cursor, 0, None, Expiries(7)).exit == Some(TimedOut)
  {
    ConsecutiveTimeouts(data, cursor, 0, None, 6);
    ConsecutiveTimeouts(data, cursor, 0, None, 7);
  }

  /**
   * Whatever the header reads meet, the frames forwarded are the stream's frames in
   * stream order: a prefix of the reference reading `SplitFrames`.
   */
  lemma {:induction false} RunForwardsInOrder(data: seq<byte>, cursor: nat, count: nat, err: Option<Error>, ts: seq<Transport>)
    requires cursor <= |data|
    decreases |ts|
    ensures RunReadLoop(data, cursor, count, err, ts).frames <= SplitFrames(data[cursor..]).frames
  {
    if ts != [] {
      match ReadStep(data, cursor, count, ts[0])
      case Forward(f, next) =>
        RunForwardsInOrder(data, next, 0, None, ts[1..]);
        ReadFrameAgreesWithSplit(data, cursor, ts[0]);
        assert ReadFrame(data, cursor, ts[0]) == Got(f, next);
      case Retry(k, e) =>
        RunForwardsInOrder(data, cursor, k, Some(e), ts[1..]);
      case Stop(_, _, _, _) =>
    }
  }

  /**
   * When every read delivers and there are more reads than frames, the loop
   * forwards every complete frame of the stream, then stops at the cut-off
   * remainder: on the header if fewer than two bytes are left (end of stream),
   * on the payload otherwise. The reader ends at the end of the stream.
   */
  lemma {:induction false} RunForwardsAll(data: seq<byte>, cursor: nat, count: nat, err: Option<Error>, ts: seq<Transport>)
    requires cursor <= |data| && AllFlowing(ts)
    requires |ts| > |SplitFrames(data[cursor..]).frames|
    decreases |ts|
    ensures var r := RunReadLoop(data, cursor, count, err, ts);
            var s := SplitFrames(data[cursor..]);
            && r.frames == s.frames && r.cursor == |data|
            && r.exit == Some(if |s.rest| < HeaderLen then HeaderFailed else PayloadFailed)
  {
    assert ts[0] == Flowing;
    ReadFrameAgreesWithSplit(data, cursor, Flowing);
    ReadStepFlowing(data, cursor, count);
    var r := ReadFrame(data, cursor, Flowing);
    if r.Got? {
      assert AllFlowing(ts[1..]);
      RunForwardsAll(data, r.next, 0, None, ts[1..]);
      var tail := RunReadLoop(data, r.next, 0, None, ts[1..]);
      assert RunReadLoop(data, cursor, count, err, ts) == tail.(frames := [r.frame] + tail.frames);
    } else {
      assert RunReadLoop(data, cursor, count, err, ts).cursor == r.next == |data|;
    }
  }

  /** On a transport that delivers, a pass is a frame read: forward what it got, stop on what failed. */
  lemma ReadStepFlowing(data: seq<byte>, cursor: nat, count: nat)
    requires cursor <= |data|
    ensures ReadStep(data, cursor, count, Flowing) ==
            match ReadFrame(data, cursor, Flowing)
            case Got(f, next) => Forward(f, next)
            case HeaderError(e, next) => Stop(HeaderFailed, next, count, e)
            case PayloadError(e, next) => Stop(PayloadFailed, next, 0, e)
  {
  }

  /**
   * Round trip through the wire: a peer that sends the frames of `ps` and then
   * closes gets exactly `ps` forwarded, in order, and the loop ends on the
   * end-of-stream header error.
   */
  lemma RoundTrip(ps: seq<Payload>, count: nat, err: Option<Error>, ts: seq<Transport>)
    requires AllFlowing(ts) && |ts| > |ps|
    ensures var r := RunReadLoop(FrameAll(ps), 0, count, err, ts);
            r.frames == ps && r.exit == Some(HeaderFailed) && r.err == Some(Wrapped(ReadContext, Plain(EndOfStream)))
  {
    var data := FrameAll(ps);
    assert data[0..] == data;
    FrameAllRoundTrip(ps);
    RunForwardsAll(data, 0, count, err, ts);
    RunEndsWithError(data, 0, count, err, ts);
  }

  /** When every read delivers, the loop's last error is the one it stopped on. */
  lemma {:induction false} RunEndsWithError(data: seq<byte>, cursor: nat, count: nat, err: Option<Error>, ts: seq<Transport>)
    requires cursor <= |data| && AllFlowing(ts)
    decreases |ts|
    ensures var r := RunReadLoop(data, cursor, count, err, ts);
            r.exit == Some(HeaderFailed) ==> r.err == Some(Wrapped(ReadContext, Plain(EndOfStream)))
  {
    if ts != [] {
      assert ts[0] == Flowing;
      assert AllFlowing(ts[1..]);
      match ReadStep(data, cursor, count, ts[0])
      case Forward(f, next) => RunEndsWithError(data, next, 0, None, ts[1..]);
      case Retry(_, _) =>
      case Stop(_, _, _, _) =>
    }
  }

  /**
   * Part-way through a run that will come to `total`: `fwd` has been
   * forwarded so far and the loop is at `cursor`, `count`, `err`; if it has
   * not stopped, the reads `rest` are still to come.
   */
  ghost predicate Continues(total: Run, data: seq<byte>, cursor: nat, count: nat, err: Option<Error>,
                            fwd: seq<Payload>, exit: Option<Exit>, rest: seq<Transport>)
  {
    && cursor <= |data|
    && if exit.None? then
         var r := RunReadLoop(data, cursor, count, err, rest);
         total == r.(frames := fwd + r.frames)
       else
         total == Run(fwd, cursor, count, err, exit) && err.Some?
  }

  /** One read taken off the front of the remaining run keeps `Continues`. */
  lemma ContinuesStep(total: Run, data: seq<byte>, cursor: nat, count: nat, err: Option<Error>,
                      fwd: seq<Payload>, t: Transport, rest: seq<Transport>)
    requires Continues(total, data, cursor, count, err, fwd, None, [t] + rest)
    ensures match ReadStep(data, cursor, count, t)
            case Forward(f, next) => Continues(total, data, next, 0, None, fwd + [f], None, rest)
            case Retry(k, e) => Continues(total, data, cursor, k, Some(e), fwd, None, rest)
            case Stop(x, next, k, e) => Continues(total, data, next, k, Some(e), fwd, Some(x), rest)
  {
    assert ([t] + rest)[0] == t && ([t] + rest)[1..] == rest;
    match ReadStep(data, cursor, count, t)
    case Forward(f, next) =>
      var r := RunReadLoop(data, next, 0, None, rest);
      assert fwd + ([f] + r.frames) == (fwd + [f]) + r.frames;
    case Retry(_, _) =>
    case Stop(_, _, _, _) =>
  }

  /** Once the loop has stopped or the reads have run out, the run is complete. */
  lemma ContinuesDone(total: Run, data: seq<byte>, cursor: nat, count: nat, err: Option<Error>,
                      fwd: seq<Payload>, exit: Option<Exit>, rest: seq<Transport>)
    requires Continues(total, data, cursor, count, err, fwd, exit, rest)
    requires exit.Some? || rest == []
    ensures total == Run(fwd, cursor, count, err, exit)
  {
    if exit.None? {
      assert fwd + [] == fwd;
    }
  }

  /** What one send did. */
  datatype SendOutcome =
    | Sent                   // the whole frame went out in one write
    | HandlerClosing         // suppressed: the handler is closing
    | PackFailed             // the payload codec could not pack the message
    | WriteFailed(wrote: nat)  // the connection took only `wrote` bytes

  class ConnectionHandler {
    /** Bytes of transport sub-header in front of each ISO 8583 payload. */
    const headerSize: nat
    /** Everything the peer sends on the connection. */
    const inbound: seq<byte>
    /** How far the buffered reader has consumed `inbound`. */
    var cursor: nat
    var deadlineExceededCount: nat
    /** The read loop's `err` variable. */
    var readErr: Option<Error>
    var readLoopDone: bool
    /** The request channel `reqCh` has been closed. */
    var requestsClosed: bool
    /** Raw frames sent on `reqCh`, in order. */
    var requests: seq<Payload>
    /** The bodies `requestHandler` handed to the payload decoder, in the order it ran. */
    var dispatched: seq<seq<byte>>
    /** Everything written to the connection. */
    var wire: seq<byte>
    var isClosing: bool
    /** `shutdownNotifier` has been closed. */
    var shutdown: bool
    /** How many times the connection itself was closed. */
    var streamCloses: nat

    /**
     * The handler's invariant: the shutdown broadcast and the single stream
     * close go with `isClosing`; while the read loop runs its counter is
     * within budget and it has consumed exactly the frames it forwarded.
     */
    ghost predicate Valid()
      reads this
    {
      && cursor <= |inbound|
      && shutdown == isClosing
      && streamCloses == (if isClosing then 1 else 0)
      && (requestsClosed ==> readLoopDone)
      && (!readLoopDone ==> !TimeoutExceeded(deadlineExceededCount) && inbound[..cursor] == FrameAll(requests))
    }

    constructor (inbound: seq<byte>, headerSize: nat)
      ensures Valid()
      ensures this.inbound == inbound && this.headerSize == headerSize
      ensures cursor == 0 && deadlineExceededCount == 0 && readErr.None?
      ensures !readLoopDone && !requestsClosed && requests == [] && dispatched == [] && wire == []
      ensures !isClosing && streamCloses == 0
    {
      this.inbound := inbound;
      this.headerSize := headerSize;
      cursor := 0;
      deadlineExceededCount := 0;
      readErr := None;
      readLoopDone := false;
      requestsClosed := false;
      requests := [];
      dispatched := [];
      wire := [];
      isClosing := false;
      shutdown := false;
      streamCloses := 0;
    }

    /**
     * `Close`: a test-and-set on `isClosing`. Only the first call broadcasts
     * shutdown and closes the stream; a stream-close failure comes back
     * wrapped as "connection close error". Later calls return no error and
     * change nothing. `closeResult` is what closing the stream reports.
     */
    method Close(closeResult: Option<Cause>) returns (err: Option<Error>)
      requires Valid()
      modifies this`isClosing, this`shutdown, this`streamCloses
      ensures Valid()
      ensures old(isClosing) ==> err.None? && streamCloses == old(streamCloses)
      ensures isClosing && shutdown && streamCloses == 1
      ensures !old(isClosing) ==>
                err == (if closeResult.Some? then Some(Wrapped(CloseContext, Plain(closeResult.value))) else None)
    {
      if isClosing {
        return None;
      }
      isClosing := true;
      shutdown := true;
      // the wait for the loops to finish is not modelled
      streamCloses := streamCloses + 1;
      if closeResult.Some? {
        return Some(Wrapped(CloseContext, Plain(closeResult.value)));
      }
      return None;
    }

    /**
     * `handleConnectionError`: a read-loop error starts a close unless there
     * is no error or the handler is already closing. The close runs on its
     * own in the source and its result is dropped.
     */
    method HandleConnectionError(err: Option<Error>, closeResult: Option<Cause>)
      requires Valid()
      modifies this`isClosing, this`shutdown, this`streamCloses
      ensures Valid()
      ensures (err.None? || old(isClosing)) ==> isClosing == old(isClosing) && streamCloses == old(streamCloses)
      ensures err.Some? ==> isClosing && streamCloses == 1
    {
      if err.None? || isClosing {
        return;
      }
      var _ := Close(closeResult);
    }

    /**
     * One pass through the read loop's `select`: a pending shutdown closes
     * `reqCh` and ends the loop; otherwise one `ReadStep` with `t` as the
     * transport's behaviour for the header read.
     */
    method ReadIteration(t: Transport) returns (exit: Option<Exit>)
      requires Valid() && !readLoopDone
      modifies this`cursor, this`deadlineExceededCount, this`readErr, this`readLoopDone,
               this`requestsClosed, this`requests
      ensures Valid()
      ensures readLoopDone == exit.Some?
      ensures old(shutdown) ==>
                && exit == Some(Shutdown) && requestsClosed
                && cursor == old(cursor) && deadlineExceededCount == old(deadlineExceededCount)
                && readErr == old(readErr) && requests == old(requests)
      ensures !old(shutdown) ==>
                !requestsClosed && Took(ReadStep(inbound, old(cursor), old(deadlineExceededCount), t), old(requests), old(cursor), exit)
    {
      exit := None;
      if shutdown {
        requestsClosed := true;
        readLoopDone := true;
        exit := Some(Shutdown);
      } else {
        // the read deadline is re-armed here; its expiry arrives as `t`
        match ReadFrame(inbound, cursor, t)
        case HeaderError(e, next) =>
          readErr := Some(e);
          if Is(e, DeadlineExceeded) {
            deadlineExceededCount := deadlineExceededCount + 1;
            if TimeoutExceeded(deadlineExceededCount) {
              readLoopDone := true;
              exit := Some(TimedOut);
            }
          } else {
            cursor := next;
            readLoopDone := true;
            exit := Some(HeaderFailed);
          }
        case PayloadError(e, next) =>
          // the header read succeeded, so the counter was reset
          deadlineExceededCount := 0;
          cursor := next;
          readErr := Some(e);
          readLoopDone := true;
          exit := Some(PayloadFailed);
        case Got(rawMsg, next) =>
          deadlineExceededCount := 0;
          ConsumeFrame(inbound, cursor, next, requests, rawMsg);
          cursor := next;
          readErr := None;
          requests := requests + [rawMsg];
      }
    }

    /** The state after one read step `s`, from the reader at `before` with `frames` forwarded. */
    ghost predicate Took(s: Step, frames: seq<Payload>, before: nat, exit: Option<Exit>)
      reads this
    {
      match s
      case Forward(f, next) =>
        exit.None? && requests == frames + [f] && cursor == next && deadlineExceededCount == 0 && readErr.None?
      case Retry(k, e) =>
        exit.None? && requests == frames && cursor == before && deadlineExceededCount == k && readErr == Some(e)
      case Stop(x, next, k, e) =>
        exit == Some(x) && requests == frames && cursor == next && deadlineExceededCount == k && readErr == Some(e)
    }

    /**
     * `readLoop` over the header reads `ts`, then `handleConnectionError` with
     * the loop's last error once it has stopped. Its effect is `RunReadLoop`'s;
     * an exit other than shutdown leaves the handler closed.
     */
    method ReadLoop(ts: seq<Transport>, closeResult: Option<Cause>) returns (exit: Option<Exit>)
      requires Valid() && !readLoopDone
      modifies this`cursor, this`deadlineExceededCount, this`readErr, this`readLoopDone,
               this`requestsClosed, this`requests, this`isClosing, this`shutdown, this`streamCloses
      ensures Valid()
      ensures readLoopDone == exit.Some?
      ensures old(shutdown) ==>
                && exit == (if ts == [] then None else Some(Shutdown)) && requestsClosed == (ts != [] || old(requestsClosed))
                && requests == old(requests) && cursor == old(cursor) && streamCloses == old(streamCloses)
                && deadlineExceededCount == old(deadlineExceededCount) && readErr == old(readErr)
      ensures !old(shutdown) ==>
                var r := RunReadLoop(inbound, old(cursor), old(deadlineExceededCount), old(readErr), ts);
                && exit == r.exit && requests == old(requests) + r.frames && cursor == r.cursor
                && deadlineExceededCount == r.count && readErr == r.err && !requestsClosed
                && (exit.Some? ==> isClosing && streamCloses == 1)
                && (exit.None? ==> !isClosing && streamCloses == 0)
    {
      exit := None;
      if shutdown {
        // the first pass sees the broadcast; the handler is already closing
        if ts != [] {
          exit := ReadIteration(ts[0]);
          HandleConnectionError(readErr, closeResult);
        }
        return;
      }
      ghost var total := RunReadLoop(inbound, cursor, deadlineExceededCount, readErr, ts);
      ghost var fwd: seq<Payload> := [];
      var i := 0;
      while i < |ts| && exit.None?
        invariant 0 <= i <= |ts|
        invariant Valid() && !shutdown && !requestsClosed
        invariant isClosing == old(isClosing) && streamCloses == old(streamCloses)
        invariant readLoopDone == exit.Some?
        invariant requests == old(requests) + fwd
        invariant Continues(total, inbound, cursor, deadlineExceededCount, readErr, fwd, exit, ts[i..])
      {
        ghost var c0, k0 := cursor, deadlineExceededCount;
        assert ts[i..] == [ts[i]] + ts[i + 1..];
        ContinuesStep(total, inbound, c0, k0, readErr, fwd, ts[i], ts[i + 1..]);
        exit := ReadIteration(ts[i]);
        ghost var step := ReadStep(inbound, c0, k0, ts[i]);
        if step.Forward? {
          fwd := fwd + [step.frame];
        }
        i := i + 1;
      }
      ContinuesDone(total, inbound, cursor, deadlineExceededCount, readErr, fwd, exit, ts[i..]);
      if exit.Some? {
        HandleConnectionError(readErr, closeResult);
      }
    }

    /**
     * `requestHandler`: the frame minus its transport sub-header goes to the
     * payload decoder, whose message is forwarded whether or not it decoded.
     */
    method RequestHandler(rawMsg: seq<byte>)
      requires Valid() && headerSize <= |rawMsg|
      modifies this`dispatched
      ensures Valid()
      ensures dispatched == old(dispatched) + [StripSubHeader(rawMsg, headerSize)]
    {
      dispatched := dispatched + [rawMsg[headerSize..]];
    }

    /**
     * `sendHandler`: nothing is written while the handler is closing or when
     * the message does not pack; otherwise the length header of the packed
     * bytes and the bytes themselves are built in one buffer and written to
     * the connection in one write. `packed` is the codec's result, `conn`
     * how the connection takes the write.
     */
    method Send(packed: Option<seq<byte>>, conn: Sink) returns (outcome: SendOutcome)
      requires Valid() && (packed.Some? ==> |packed.value| < LengthLimit)
      modifies this`wire
      ensures Valid()
      ensures outcome == HandlerClosing <==> isClosing
      ensures outcome == PackFailed <==> !isClosing && packed.None?
      ensures outcome.Sent? ==> wire == old(wire) + Frame(packed.value)
      ensures outcome.WriteFailed? ==>
                && packed.Some? && outcome.wrote < |Frame(packed.value)|
                && conn.Cutoff? && outcome.wrote == conn.room
                && wire == old(wire) + Frame(packed.value)[..outcome.wrote]
      ensures outcome.Sent? <==> !isClosing && packed.Some? && SinkWrite(conn, Frame(packed.value)).err.None?
      ensures !outcome.Sent? && !outcome.WriteFailed? ==> wire == old(wire)
    {
      if isClosing {
        return HandlerClosing;
      }
      if packed.None? {
        return PackFailed;
      }
      var p: Payload := packed.value;
      var buf: seq<byte> := [];
      var header := MsgLenWriter(|p|, Open);
      // an in-memory buffer takes every write, so the header write succeeds
      assert header.err.None?;
      buf := buf + header.out;
      buf := buf + p;
      assert buf == Frame(p);
      var written := SinkWrite(conn, buf);
      wire := wire + buf[..written.wrote];
      if written.err.Some? {
        return WriteFailed(written.wrote);
      }
      assert buf[..written.wrote] == buf;
      return Sent;
    }
  }
}
