/**
 * The wire format shared by both connection types: each frame is a length
 * header followed by exactly that many payload bytes, frames back to back.
 * `Frame` is what the send path writes, `ReadFrame` is one pass of the read
 * loops over a buffered reader, and `SplitFrames` is the reference reading of
 * a whole stream.
 */
module Framing {
  import opened Wrappers
  import opened Errors
  import opened LengthHeader

  /** A payload whose length fits the header. */
  type Payload = p: seq<byte> | |p| < LengthLimit

  /** One frame on the wire: the header for `|p|`, then `p`. */
  function Frame(p: Payload): (w: seq<byte>)
    ensures |w| == HeaderLen + |p|
    ensures Decode(w[..HeaderLen]) == |p| && w[HeaderLen..] == p
  {
    Encode(|p|) + p
  }

  /** The frames of `ps`, in order, back to back. */
  function FrameAll(ps: seq<Payload>): seq<byte>
  {
    if ps == [] then [] else Frame(ps[0]) + FrameAll(ps[1..])
  }

  lemma {:induction false} FrameAllConcat(ps: seq<Payload>, qs: seq<Payload>)
    ensures FrameAll(ps + qs) == FrameAll(ps) + FrameAll(qs)
  {
    if ps == [] {
      assert ps + qs == qs;
    } else {
      assert (ps + qs)[1..] == ps[1..] + qs;
      FrameAllConcat(ps[1..], qs);
    }
  }

  lemma FrameAllAppend(ps: seq<Payload>, p: Payload)
    ensures FrameAll(ps + [p]) == FrameAll(ps) + Frame(p)
  {
    FrameAllConcat(ps, [p]);
    assert FrameAll([p]) == Frame(p) + FrameAll([]);
  }

  /** Too short to hold one more complete frame: the header or its payload is cut off. */
  predicate Incomplete(s: seq<byte>) {
    |s| < HeaderLen || |s| - HeaderLen < Decode(s[..HeaderLen])
  }

  /** A stream read as frames, and what is left after the last complete one. */
  datatype Split = Split(frames: seq<Payload>, rest: seq<byte>)

  /**
   * The reference reading of a stream: frames are taken from the front for
   * as long as a complete one is there.
   */
  function SplitFrames(s: seq<byte>): Split
    decreases |s|
  {
    if Incomplete(s) then Split([], s)
    else
      var n := Decode(s[..HeaderLen]);
      var tail := SplitFrames(s[HeaderLen + n..]);
      Split([s[HeaderLen..HeaderLen + n]] + tail.frames, tail.rest)
  }

  /** The reading loses and reorders nothing, and what it leaves is not a complete frame. */
  lemma {:induction false} SplitFramesLossless(s: seq<byte>)
    decreases |s|
    ensures FrameAll(SplitFrames(s).frames) + SplitFrames(s).rest == s
    ensures Incomplete(SplitFrames(s).rest)
  {
    if !Incomplete(s) {
      var k := HeaderLen + Decode(s[..HeaderLen]);
      var tail := SplitFrames(s[k..]);
      SplitFramesLossless(s[k..]);
      FrontFrame(s);
      ConsFrame(s[HeaderLen..k], tail.frames, tail.rest, s, k);
    }
  }

  /** A stream that holds a complete frame starts with the frame of its first payload. */
  lemma FrontFrame(s: seq<byte>)
    requires !Incomplete(s)
    ensures var k := HeaderLen + Decode(s[..HeaderLen]);
            Frame(s[HeaderLen..k]) == s[..k]
  {
    var k := HeaderLen + Decode(s[..HeaderLen]);
    EncodeDecode(s[..HeaderLen]);
    assert s[..k] == s[..HeaderLen] + s[HeaderLen..k];
  }

  lemma ConsFrame(f: Payload, fs: seq<Payload>, rest: seq<byte>, s: seq<byte>, k: nat)
    requires k <= |s| && Frame(f) == s[..k] && FrameAll(fs) + rest == s[k..]
    ensures FrameAll([f] + fs) + rest == s
  {
    assert ([f] + fs)[1..] == fs;
    assert s == s[..k] + s[k..];
  }

  /**
   * The reading is unique: any way of writing `s` as whole frames followed by
   * an incomplete remainder is the one `SplitFrames` finds.
   */
  lemma {:induction false} SplitUnique(ps: seq<Payload>, rest: seq<byte>)
    requires Incomplete(rest)
    ensures SplitFrames(FrameAll(ps) + rest) == Split(ps, rest)
  {
    var s := FrameAll(ps) + rest;
    if ps == [] {
      assert s == rest;
    } else {
      var p := ps[0];
      var n := |p|;
      assert s == Frame(p) + (FrameAll(ps[1..]) + rest);
      assert s[..HeaderLen] == Frame(p)[..HeaderLen];
      assert !Incomplete(s);
      assert s[HeaderLen..HeaderLen + n] == p;
      assert s[HeaderLen + n..] == FrameAll(ps[1..]) + rest;
      SplitUnique(ps[1..], rest);
      assert [p] + ps[1..] == ps;
    }
  }

  /** Round trip: reading the concatenated frames of `ps` gives back `ps`, with nothing left over. */
  lemma FrameAllRoundTrip(ps: seq<Payload>)
    ensures SplitFrames(FrameAll(ps)) == Split(ps, [])
  {
    assert FrameAll(ps) + [] == FrameAll(ps);
    SplitUnique(ps, []);
  }

  /** After frames `ps` have been consumed, the rest of the stream holds the remaining frames. */
  lemma SplitAfterPrefix(s: seq<byte>, c: nat, ps: seq<Payload>)
    requires c <= |s| && s[..c] == FrameAll(ps)
    ensures SplitFrames(s).frames == ps + SplitFrames(s[c..]).frames
    ensures SplitFrames(s).rest == SplitFrames(s[c..]).rest
  {
    var tail := SplitFrames(s[c..]);
    SplitFramesLossless(s[c..]);
    Regroup(s, c, ps, tail);
    SplitUnique(ps + tail.frames, tail.rest);
  }

  lemma Regroup(s: seq<byte>, c: nat, ps: seq<Payload>, tail: Split)
    requires c <= |s| && s[..c] == FrameAll(ps) && s[c..] == FrameAll(tail.frames) + tail.rest
    ensures s == FrameAll(ps + tail.frames) + tail.rest
  {
    FrameAllConcat(ps, tail.frames);
    assert s == s[..c] + s[c..];
  }

  /** One read of a frame from a buffered reader positioned at `cursor`. */
  datatype FrameRead =
    | Got(frame: Payload, next: nat)        // header and the whole payload were read
    | HeaderError(err: Error, next: nat)    // the header read failed
    | PayloadError(err: Error, next: nat)   // fewer payload bytes than the header declared

  /**
   * Read a header, then exactly the declared number of bytes from the same
   * reader (`io.ReadFull`). A frame comes out exactly when a complete one is
   * there and the transport delivers; a short payload read consumes what
   * there was.
   */
  function ReadFrame(data: seq<byte>, cursor: nat, t: Transport): (r: FrameRead)
    requires cursor <= |data|
    ensures cursor <= r.next <= |data|
    ensures r.Got? <==> t == Flowing && !Incomplete(data[cursor..])
    ensures r.Got? ==> data[cursor..r.next] == Frame(r.frame)
    ensures r.HeaderError? <==> t.Failing? || |data| - cursor < HeaderLen
    ensures r.HeaderError? ==> (Is(r.err, DeadlineExceeded) <==> t == Failing(DeadlineExceeded))
    ensures r.HeaderError? && t.Failing? ==> r.next == cursor
    ensures r.HeaderError? && t.Flowing? ==> r.next == |data|
    ensures r.PayloadError? ==> r.next == |data| && Is(r.err, EndOfStream)
  {
    var h := MsgLenReader(data[cursor..], t);
    if h.err.Some? then
      HeaderError(h.err.value, cursor + h.consumed)
    else
      var start := cursor + HeaderLen;
      if |data| - start < h.length then
        PayloadError(Plain(EndOfStream), |data|)
      else
        var f: Payload := data[start..start + h.length];
        assert data[cursor..][..HeaderLen] == data[cursor..start];
        EncodeDecode(data[cursor..start]);
        assert data[cursor..start + h.length] == data[cursor..start] + f;
        Got(f, start + h.length)
  }

  /**
   * `ReadFrame` agrees with the reference reading: a frame it reads is the
   * first frame of `SplitFrames` and the rest of the reading, remainder
   * included, starts where the reader stopped; when the transport delivers and no frame comes out, the
   * reference reading finds no frame either.
   */
  lemma ReadFrameAgreesWithSplit(data: seq<byte>, cursor: nat, t: Transport)
    requires cursor <= |data|
    ensures var r := ReadFrame(data, cursor, t);
            && (r.Got? ==> SplitFrames(data[cursor..]).frames == [r.frame] + SplitFrames(data[r.next..]).frames)
            && (r.Got? ==> SplitFrames(data[cursor..]).rest == SplitFrames(data[r.next..]).rest)
            && (t.Flowing? && !r.Got? ==> SplitFrames(data[cursor..]) == Split([], data[cursor..]))
  {
    var r := ReadFrame(data, cursor, t);
    if r.Got? {
      var s := data[cursor..];
      var k := r.next - cursor;
      assert s[..k] == FrameAll([r.frame]) by {
        assert FrameAll([r.frame]) == Frame(r.frame) + FrameAll([]);
      }
      SplitAfterPrefix(s, k, [r.frame]);
      assert s[k..] == data[r.next..];
    }
  }

  /** `rawMsg[headerSize:]`: drop the transport sub-header in front of the ISO 8583 payload. */
  function StripSubHeader(raw: seq<byte>, headerSize: nat): (body: seq<byte>)
    requires headerSize <= |raw|
    ensures |body| == |raw| - headerSize
    ensures raw == raw[..headerSize] + body
  {
    raw[headerSize..]
  }

  /**
   * Stripping undoes prepending: whatever the configured sub-header size, a
   * frame whose payload is a sub-header of that size followed by a message
   * hands the decoder exactly that message, and the sub-header is what was
   * dropped.
   */
  lemma SubHeaderInverse(sub: seq<byte>, msg: seq<byte>, headerSize: nat)
    requires |sub| == headerSize
    ensures StripSubHeader(sub + msg, headerSize) == msg
    ensures (sub + msg)[..headerSize] == sub
  {
    assert (sub + msg)[headerSize..] == msg;
  }

  /**
   * The servers and the client all dispatch with the `Spec1HeaderSize`
   * sub-header: a 12-byte sub-header followed by a message hands the
   * decoder exactly that message.
   */
  lemma Spec1Dispatch(sub: seq<byte>, msg: seq<byte>)
    requires |sub| == Spec1HeaderSize
    ensures StripSubHeader(sub + msg, Spec1HeaderSize) == msg
  {
    SubHeaderInverse(sub, msg, Spec1HeaderSize);
  }
}
