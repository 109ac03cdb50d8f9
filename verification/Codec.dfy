/** The running encoder and decoder, end to end. */
module Codec {
  import opened Wire
  import opened Schema
  import opened Encoding
  import opened Decoding
  import opened RoundTrip
  import opened SizeBound
  import Encoder
  import Decoder
  import InputStream

  /** Encode a struct into a buffer of the size the generator announces, and decode it from
      there into other memory. A struct that is encodable and holds declared values always
      fits, and comes back with absent fields at their defaults. */
  method ThroughBuffer(d: Desc, m: Value, mem: Value) returns (v: Value)
    requires WellFormed(d) && Shaped(d, m) && Shaped(d, mem) && Encodable(d, m) && Declared(d, m)
    requires MsgBound(d).Some? && MsgBound(d).value < TWO32
    ensures Shaped(d, ToDefaults(d, mem)) && v == RestoredMsg(d, m, ToDefaults(d, mem))
  {
    MsgBoundHolds(d, m);
    DecodeUndoesEncode(d, m, mem);
    var buf := new byte[MsgBound(d).value];
    var written := Encoder.EncodeToBuffer(buf, buf.Length, d, m);
    var bytes := buf[..written.value];
    assert bytes == Encode(d, m);
    var stream := new InputStream.Stream(bytes, |bytes|);
    assert bytes[..|bytes|] == bytes;
    var ok: bool;
    ok, v := Decoder.DecodeInto(stream, d, mem);
  }
}
