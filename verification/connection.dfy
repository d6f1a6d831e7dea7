/**
 * `Connection` (connection.go): the simpler connection type, with a read
 * loop that forwards frames, a per-frame dispatch and a close. Its read
 * loop ends only on the shutdown broadcast: a failed read leaves just the
 * `select`, so the `for` goes round again. The goroutines become methods
 * called one after another on the same object; the loop's effect over a
 * run of reads is specified by the pure `ConnRun`.
 */
module Conn {
  import opened Wrappers
  import opened Errors
  import opened LengthHeader
  import opened Framing

  /** The frames a run of reads forwarded, and where the buffered reader ended up. */
  datatype Progress = Progress(frames: seq<Payload>, cursor: nat)

  /**
   * The read loop over the header reads `ts` when no shutdown is pending:
   * every pass is one `ReadFrame`; a frame is forwarded, and after a failed
   * read the loop simply goes round again from where the reader stopped.
   */
  function ConnRun(data: seq<byte>, cursor: nat, ts: seq<Transport>): (r: Progress)
    requires cursor <= |data|
    decreases |ts|
  {
    if ts == [] then Progress([], cursor)
    else
      match ReadFrame(data, cursor, ts[0])
      case Got(f, next) =>
        var r := ConnRun(data, next, ts[1..]);
        r.(frames := [f] + r.frames)
      case HeaderError(_, next) => ConnRun(data, next, ts[1..])
      case PayloadError(_, next) => ConnRun(data, next, ts[1..])
  }

  /** The reader never runs past the end of what the peer sent. */
  lemma {:induction false} ConnRunWithin(data: seq<byte>, cursor: nat, ts: seq<Transport>)
    requires cursor <= |data|
    decreases |ts|
    ensures cursor <= ConnRun(data, cursor, ts).cursor <= |data|
  {
    if ts != [] {
      ConnRunWithin(data, ReadFrame(data, cursor, ts[0]).next, ts[1..]);
    }
  }

  /**
   * Whatever the header reads meet, the frames forwarded are the stream's frames in
   * stream order: a prefix of the reference reading `SplitFrames`.
   */
  lemma {:induction false} ConnRunInOrder(data: seq<byte>, cursor: nat, ts: seq<Transport>)
    requires cursor <= |data|
    decreases |ts|
    ensures ConnRun(data, cursor, ts).frames <= SplitFrames(data[cursor..]).frames
  {
    if ts != [] {
      var r := ReadFrame(data, cursor, ts[0]);
      ConnRunInOrder(data, r.next, ts[1..]);
      ReadFrameAgreesWithSplit(data, cursor, ts[0]);
      if !r.Got? {
        if ts[0].Failing? {
          assert r.next == cursor;
        } else {
          assert r.next == |data|;
          EndOfStreamSpins(data, ts[1..]);
        }
      }
    }
  }

  /**
   * Once the reader is at the end of the stream, every later pass fails on
   * the header and nothing more is forwarded: the loop spins in place.
   */
  lemma {:induction false} EndOfStreamSpins(data: seq<byte>, ts: seq<Transport>)
    decreases |ts|
    ensures ConnRun(data, |data|, ts) == Progress([], |data|)
  {
    if ts != [] {
      assert ReadFrame(data, |data|, ts[0]).HeaderError?;
      EndOfStreamSpins(data, ts[1..]);
    }
  }

  /**
   * When every read delivers and there are more reads than frames, every
   * complete frame of the stream is forwarded and the reader ends at the end
   * of the stream.
   */
  lemma {:induction false} ConnRunDeliversAll(data: seq<byte>, cursor: nat, ts: seq<Transport>)
    requires cursor <= |data| && AllFlowing(ts)
    requires |ts| > |SplitFrames(data[cursor..]).frames|
    decreases |ts|
    ensures ConnRun(data, cursor, ts) == Progress(SplitFrames(data[cursor..]).frames, |data|)
  {
    assert ts[0] == Flowing;
    assert AllFlowing(ts[1..]);
    var r := ReadFrame(data, cursor, ts[0]);
    ReadFrameAgreesWithSplit(data, cursor, ts[0]);
    if r.Got? {
      ConnRunDeliversAll(data, r.next, ts[1..]);
    } else {
      EndOfStreamSpins(data, ts[1..]);
    }
  }

  /**
   * Round trip through the wire: a peer that sends the frames of `ps` gets
   * exactly `ps` forwarded, in order.
   */
  lemma ConnRoundTrip(ps: seq<Payload>, ts: seq<Transport>)
    requires AllFlowing(ts) && |ts| > |ps|
    ensures ConnRun(FrameAll(ps), 0, ts) == Progress(ps, |FrameAll(ps)|)
  {
    var data := FrameAll(ps);
    assert data[0..] == data;
    FrameAllRoundTrip(ps);
    ConnRunDeliversAll(data, 0, ts);
  }

  class Connection {
    /** Bytes of transport sub-header in front of each ISO 8583 payload. */
    const headerSize: nat
    /** Everything the peer sends on the stream. */
    const inbound: seq<byte>
    /** How far the buffered reader has consumed `inbound`. */
    var cursor: nat
    /** Raw frames sent on `reqCh`, in order. */
    var requests: seq<Payload>
    /** The bodies `requestHandler` handed to the payload decoder, in the order it ran. */
    var delivered: seq<seq<byte>>
    /** `shutdownNotifier` has been closed. */
    var shutdown: bool
    /** How many times the stream itself was closed. */
    var streamCloses: nat
    var readLoopDone: bool

    /** The reader stays within the stream; the stream is closed once, with the broadcast; the loop ends only on it. */
    ghost predicate Valid()
      reads this
    {
      && cursor <= |inbound|
      && streamCloses == (if shutdown then 1 else 0)
      && (readLoopDone ==> shutdown)
    }

    constructor (inbound: seq<byte>, headerSize: nat)
      ensures Valid()
      ensures this.inbound == inbound && this.headerSize == headerSize
      ensures cursor == 0 && requests == [] && delivered == []
      ensures !shutdown && streamCloses == 0 && !readLoopDone
    {
      this.inbound := inbound;
      this.headerSize := headerSize;
      cursor := 0;
      requests := [];
      delivered := [];
      shutdown := false;
      streamCloses := 0;
      readLoopDone := false;
    }

    /**
     * `Close`: broadcast shutdown, then close the stream; a stream-close
     * failure comes back wrapped as "connection close error". The broadcast
     * closes a channel, which may happen only once, so the caller must not
     * close twice. `closeResult` is what closing the stream reports.
     */
    method Close(closeResult: Option<Cause>) returns (err: Option<Error>)
      requires Valid() && !shutdown
      modifies this`shutdown, this`streamCloses
      ensures Valid()
      ensures shutdown && streamCloses == 1
      ensures err == (if closeResult.Some? then Some(Wrapped(CloseContext, Plain(closeResult.value))) else None)
    {
      shutdown := true;
      // the wait for the read loop to return is not modelled
      streamCloses := streamCloses + 1;
      if closeResult.Some? {
        return Some(Wrapped(CloseContext, Plain(closeResult.value)));
      }
      return None;
    }

    /**
     * One pass through the read loop's `select`: a pending shutdown returns
     * from the loop; otherwise a header read with `t` as the transport's
     * behaviour and, if it succeeds, a read of exactly that many bytes. A
     * failed read only leaves the `select`, so the loop carries on.
     */
    method ReadIteration(t: Transport) returns (returned: bool)
      requires Valid() && !readLoopDone
      modifies this`cursor, this`requests, this`readLoopDone
      ensures Valid()
      ensures returned == old(shutdown) && readLoopDone == returned
      ensures old(shutdown) ==> cursor == old(cursor) && requests == old(requests)
      ensures !old(shutdown) ==>
                var r := ReadFrame(inbound, old(cursor), t);
                && cursor == r.next
                && requests == old(requests) + (if r.Got? then [r.frame] else [])
    {
      if shutdown {
        readLoopDone := true;
        return true;
      }
      var h := MsgLenReader(inbound[cursor..], t);
      if h.err.Some? {
        cursor := cursor + h.consumed;
        return false;
      }
      var start := cursor + HeaderLen;
      if |inbound| - start < h.length {
        // io.ReadFull consumes what there is and reports the shortfall
        cursor := |inbound|;
        return false;
      }
      var rawMsg: Payload := inbound[start..start + h.length];
      cursor := start + h.length;
      requests := requests + [rawMsg];
      return false;
    }

    /**
     * `readLoop` over the header reads `ts`. Without a shutdown it never
     * returns, whatever the reads meet: its effect is `ConnRun`'s. With one
     * pending, the first pass returns.
     */
    method ReadLoop(ts: seq<Transport>) returns (returned: bool)
      requires Valid() && !readLoopDone
      modifies this`cursor, this`requests, this`readLoopDone
      ensures Valid()
      ensures returned == (old(shutdown) && ts != []) && readLoopDone == returned
      ensures old(shutdown) ==> cursor == old(cursor) && requests == old(requests)
      ensures !old(shutdown) ==>
                var r := ConnRun(inbound, old(cursor), ts);
                cursor == r.cursor && requests == old(requests) + r.frames
    {
      returned := false;
      if shutdown {
        if ts != [] {
          returned := ReadIteration(ts[0]);
        }
        return;
      }
      var i := 0;
      while i < |ts|
        invariant 0 <= i <= |ts|
        invariant Valid() && !shutdown && !readLoopDone
        invariant var r := ConnRun(inbound, cursor, ts[i..]);
                  var total := ConnRun(inbound, old(cursor), ts);
                  total.cursor == r.cursor && old(requests) + total.frames == requests + r.frames
      {
        assert ts[i..][0] == ts[i] && ts[i..][1..] == ts[i + 1..];
        ghost var before := requests;
        ghost var r := ConnRun(inbound, cursor, ts[i..]);
        var _ := ReadIteration(ts[i]);
        assert before + r.frames == requests + ConnRun(inbound, cursor, ts[i + 1..]).frames;
        i := i + 1;
      }
      assert ts[i..] == [];
      assert requests + [] == requests;
    }

    /**
     * `requestHandler`: the frame minus its transport sub-header goes to the
     * payload decoder, whose message goes to the inbound handler whether or
     * not it decoded.
     */
    method RequestHandler(rawMsg: seq<byte>)
      requires Valid() && headerSize <= |rawMsg|
      modifies this`delivered
      ensures Valid()
      ensures delivered == old(delivered) + [StripSubHeader(rawMsg, headerSize)]
    {
      delivered := delivered + [rawMsg[headerSize..]];
    }
  }
}
