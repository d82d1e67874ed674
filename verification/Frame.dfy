/** The BTP frame format (pybtp/parser.py) and the whole-message reader (pybtp/btp_websocket.py). */
module Frames {
  import opened Bytes

  const HDR_LEN := 5
  const MAX_SIGNED_LEN := 0x7fff

  /** A frame as a reader returns it. The header's data length is always that of the data. */
  datatype Frame = Frame(svcId: byte, op: byte, ctrlIndex: byte, data: seq<byte>) {
    predicate Valid() {
      |data| < 0x1_0000
    }

    /** The bytes of the frame on the wire. */
    function Wire(): (w: seq<byte>)
      requires Valid()
      ensures |w| == HDR_LEN + |data|
    {
      [svcId, op, ctrlIndex] + PackU16(|data|) + data
    }
  }

  datatype Header = Header(svcId: byte, op: byte, ctrlIndex: byte, dataLen: u16)

  /** `struct.unpack("<BBBH", binary)`. */
  function DecHdr(binary: seq<byte>): Result<Header> {
    if |binary| != HDR_LEN then Err(StructError)
    else Ok(Header(binary[0], binary[1], binary[2], UnpackU16(binary[3..5])))
  }

  /** `enc_frame`: the length is packed as a signed 16-bit number. */
  function EncFrame(svcId: int, op: int, ctrlIndex: int, data: seq<byte>): Result<seq<byte>> {
    if |data| > MAX_SIGNED_LEN then Err(StructError)
    else if !(0 <= svcId < 0x100 && 0 <= op < 0x100 && 0 <= ctrlIndex < 0x100) then Err(StructError)
    else Ok([svcId, op, ctrlIndex] + PackU16(|data|) + data)
  }

  /** `BTPWebSocket.read` of one message. */
  function ReadMessage(raw: seq<byte>): Result<Frame> {
    var hdr :- DecHdr(if |raw| < HDR_LEN then raw else raw[..HDR_LEN]);
    if |raw| != HDR_LEN + hdr.dataLen then Err(AssertionError)
    else Ok(Frame(hdr.svcId, hdr.op, hdr.ctrlIndex, raw[HDR_LEN..]))
  }

  /** The header at the front of a frame's bytes. */
  lemma WireHeader(f: Frame, tail: seq<byte>)
    requires f.Valid()
    ensures DecHdr((f.Wire() + tail)[..HDR_LEN]) == Ok(Header(f.svcId, f.op, f.ctrlIndex, |f.data|))
    ensures (f.Wire() + tail)[HDR_LEN..][..|f.data|] == f.data
    ensures (f.Wire() + tail)[HDR_LEN..][|f.data|..] == tail
  {
    var b := (f.Wire() + tail)[..HDR_LEN];
    assert b[3..5] == PackU16(|f.data|);
    PackUnpackU16(|f.data|);
  }

  /** The reader accepts exactly the wire forms of frames. */
  lemma ReadMessageExact(raw: seq<byte>, f: Frame)
    ensures ReadMessage(raw) == Ok(f) <==> f.Valid() && raw == f.Wire()
  {
    if f.Valid() && raw == f.Wire() {
      WireHeader(f, []);
      assert raw + [] == raw;
    }
    if ReadMessage(raw) == Ok(f) {
      var b := raw[..HDR_LEN];
      UnpackPackU16(b[3..5]);
      assert raw == b + raw[HDR_LEN..];
      assert b == [b[0], b[1], b[2]] + b[3..5];
    }
  }

  /** What the host sends is read back; it can send exactly the payloads up to 32767 bytes. */
  lemma EncFrameRoundTrip(f: Frame)
    ensures EncFrame(f.svcId, f.op, f.ctrlIndex, f.data).Ok? <==> |f.data| <= MAX_SIGNED_LEN
    ensures |f.data| <= MAX_SIGNED_LEN ==>
              ReadMessage(EncFrame(f.svcId, f.op, f.ctrlIndex, f.data).value) == Ok(f)
  {
    if |f.data| <= MAX_SIGNED_LEN {
      ReadMessageExact(f.Wire(), f);
    }
  }

  /** A frame that the readers accept and `enc_frame` rejects: its length needs the sixteenth bit. */
  lemma LongFrameNotEncodable()
    ensures var f := Frame(2, 0x18, 0, seq(0x8000, _ => 0));
            f.Valid() && ReadMessage(f.Wire()) == Ok(f)
            && EncFrame(f.svcId, f.op, f.ctrlIndex, f.data) == Err(StructError)
  {
    var f := Frame(2, 0x18, 0, seq(0x8000, _ => 0));
    ReadMessageExact(f.Wire(), f);
  }

  /** The frames' bytes, one after the other. */
  function WireAll(fs: seq<Frame>): seq<byte>
    requires forall f <- fs :: f.Valid()
  {
    if fs == [] then [] else fs[0].Wire() + WireAll(fs[1..])
  }

  /** The bytes of a frame, one by one; the length comes low byte first. */
  lemma WireBytes(f: Frame)
    requires f.Valid()
    ensures var w := f.Wire();
            && w[0] == f.svcId && w[1] == f.op && w[2] == f.ctrlIndex
            && w[3] == |f.data| % 256 && w[4] == |f.data| / 256 && w[5..] == f.data
    ensures |f.data| <= 32767 ==> EncFrame(f.svcId, f.op, f.ctrlIndex, f.data) == Ok(f.Wire())
  {
  }
}
