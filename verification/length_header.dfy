/**
 * The two-byte length header that precedes every frame (specs.go:
 * `MsgLenReader`, `MsgLenWriter`, which wrap the library's
 * `Binary2BytesHeader`): the payload length as an unsigned big-endian
 * 16-bit number, not counting the header itself.
 */
module LengthHeader {
  import opened Wrappers
  import opened Errors

  newtype byte = x: int | 0 <= x < 0x100

  /** Width of the length header in bytes. */
  const HeaderLen: nat := 2
  /** One more than the largest length the header can carry. */
  const LengthLimit: nat := 0x1_0000
  /** Transport sub-header in front of each ISO 8583 payload (`Spec1HeaderSize`). */
  const Spec1HeaderSize: nat := 12

  const ReadContext := "reading header failed"
  const WriteContext := "writing header failed"

  /** The length a header carries: its first byte is the high-order byte. */
  function Decode(h: seq<byte>): (n: nat)
    requires |h| == HeaderLen
    ensures n < LengthLimit
  {
    h[0] as nat * 0x100 + h[1] as nat
  }

  /** Big-endian: the first header byte is the high-order byte of the length, the second the low-order one. */
  lemma DecodeBigEndian(h: seq<byte>)
    requires |h| == HeaderLen
    ensures Decode(h) / 0x100 == h[0] as nat && Decode(h) % 0x100 == h[1] as nat
  {
  }

  /** The header for a length that fits in two bytes. */
  function Encode(n: nat): (h: seq<byte>)
    requires n < LengthLimit
    ensures |h| == HeaderLen && Decode(h) == n
  {
    [(n / 0x100) as byte, (n % 0x100) as byte]
  }

  /** Every two-byte header is the encoding of the length it carries. */
  lemma EncodeDecode(h: seq<byte>)
    requires |h| == HeaderLen
    ensures Encode(Decode(h)) == h
  {
    var n := Decode(h);
    assert Encode(n)[0] == h[0] && Encode(n)[1] == h[1];
  }

  /** The two header lengths are equal exactly when the headers are. */
  lemma EncodeInjective(m: nat, n: nat)
    requires m < LengthLimit && n < LengthLimit
    ensures Encode(m) == Encode(n) <==> m == n
  {
    if Encode(m) == Encode(n) {
      assert Decode(Encode(m)) == Decode(Encode(n));
    }
  }

  /** The vectors of the codec's unit tests: 01 13 is 275 and 00 9d is 157, both ways. */
  lemma TestVectors()
    ensures Decode([0x01, 0x13]) == 275 && Decode([0x00, 0x9d]) == 157
    ensures Encode(275) == [0x01, 0x13] && Encode(157) == [0x00, 0x9d]
    ensures MsgLenReader([0x01, 0x13], Flowing) == LengthRead(275, 2, None)
    ensures MsgLenReader([0x00, 0x9d], Flowing) == LengthRead(157, 2, None)
    ensures MsgLenWriter(275, Open) == HeaderWrite(2, [0x01, 0x13], None)
    ensures MsgLenWriter(157, Open) == HeaderWrite(2, [0x00, 0x9d], None)
  {
  }

  /** How the transport behaves when a read is attempted. */
  datatype Transport =
    | Flowing               // the bytes the peer sent are delivered; past them, end of stream
    | Failing(cause: Cause) // the read fails before any byte is delivered

  /** Every read attempt in `ts` delivers. */
  predicate AllFlowing(ts: seq<Transport>) {
    forall i :: 0 <= i < |ts| ==> ts[i] == Flowing
  }

  /** `MsgLenReader`'s `(int, error)` result and the bytes it took from the reader. */
  datatype LengthRead = LengthRead(length: nat, consumed: nat, err: Option<Error>)

  /**
   * `MsgLenReader`: read one header from a reader holding `pending`.
   * A failure reports length 0 and an error wrapped as "reading header failed".
   */
  function MsgLenReader(pending: seq<byte>, t: Transport): (r: LengthRead)
    ensures r.err.None? <==> t == Flowing && |pending| >= HeaderLen
    ensures r.err.None? ==> r.consumed == HeaderLen && r.length == Decode(pending[..HeaderLen])
    ensures r.err.Some? ==> r.length == 0 && r.consumed <= |pending|
    ensures r.err.Some? ==> r.err.value.Wrapped? && r.err.value.context == ReadContext
    ensures r.err.Some? ==> (Is(r.err.value, DeadlineExceeded) <==> t == Failing(DeadlineExceeded))
    ensures r.err.Some? && t.Failing? ==> r.consumed == 0
  {
    if t.Failing? then
      LengthRead(0, 0, Some(Wrapped(ReadContext, Plain(t.cause))))
    else if |pending| < HeaderLen then
      // the peer closed mid-header: what came is consumed, the rest is missing
      LengthRead(0, |pending|, Some(Wrapped(ReadContext, Plain(EndOfStream))))
    else
      LengthRead(Decode(pending[..HeaderLen]), HeaderLen, None)
  }

  /** A byte sink (`io.Writer`): one that takes everything, or one that fails after `room` bytes. */
  datatype Sink = Open | Cutoff(room: nat)

  /** What one `Write` call reports: the byte count and the error. */
  datatype Written = Written(wrote: nat, err: Option<Error>)

  /** One `Write(data)` on a sink: the count is short exactly when an error is reported. */
  function SinkWrite(w: Sink, data: seq<byte>): (r: Written)
    ensures r.wrote <= |data|
    ensures r.err.None? <==> r.wrote == |data|
    ensures r.err.None? <==> (w.Open? || |data| <= w.room)
  {
    match w
    case Open => Written(|data|, None)
    case Cutoff(room) =>
      if |data| <= room then Written(|data|, None) else Written(room, Some(Plain(Broken)))
  }

  /** `MsgLenWriter`'s `(int, error)` result, with the bytes that reached the sink. */
  datatype HeaderWrite = HeaderWrite(wrote: nat, out: seq<byte>, err: Option<Error>)

  /**
   * `MsgLenWriter`: write the header for `length`. On success exactly two bytes
   * are reported; on failure the sink's own count comes back with the error,
   * wrapped as "writing header failed".
   */
  function MsgLenWriter(length: nat, w: Sink): (r: HeaderWrite)
    requires length < LengthLimit
    ensures r.err.None? <==> (w.Open? || HeaderLen <= w.room)
    ensures r.err.None? ==> r.wrote == HeaderLen && |r.out| == HeaderLen && Decode(r.out) == length
    ensures r.err.Some? ==> r.wrote < HeaderLen && r.err.value.Wrapped? && r.err.value.context == WriteContext
    ensures r.err.Some? ==> w.Cutoff? && r.wrote == w.room && r.err.value.inner == Plain(Broken)
    ensures r.wrote == |r.out| && r.out == Encode(length)[..r.wrote]
  {
    var h := Encode(length);
    var written := SinkWrite(w, h);
    var err := if written.err.Some? then Some(Wrapped(WriteContext, written.err.value)) else None;
    HeaderWrite(written.wrote, h[..written.wrote], err)
  }

  /** Round trip: the reader recovers every length the writer wrote. */
  lemma WriterReaderRoundTrip(length: nat, rest: seq<byte>)
    requires length < LengthLimit
    ensures var w := MsgLenWriter(length, Open);
            w.err.None? && MsgLenReader(w.out + rest, Flowing) == LengthRead(length, HeaderLen, None)
  {
    var w := MsgLenWriter(length, Open);
    assert (w.out + rest)[..HeaderLen] == w.out;
  }
}
