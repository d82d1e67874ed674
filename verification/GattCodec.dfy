/** Discovery responses and attribute lists (pybtp/btp.py). */
module GattCodec {
  import opened Bytes
  import opened Text

  datatype Kind = Service | Include | Characteristic | Descriptor

  /** An entry of a discovery response; U is the form of its UUID, bytes or text. */
  datatype Entry<+U> =
    | ServiceEntry(startHdl: u16, endHdl: u16, uuid: U)
    | IncludeEntry(handle: u16, inclHdl: u16, inclEnd: u16, uuid: U)
    | CharacteristicEntry(handle: u16, valueHdl: u16, props: byte, uuid: U)
    | DescriptorEntry(handle: u16, uuid: U)
  {
    function KindOf(): Kind {
      match this
      case ServiceEntry(_, _, _) => Service
      case IncludeEntry(_, _, _, _) => Include
      case CharacteristicEntry(_, _, _, _) => Characteristic
      case DescriptorEntry(_, _) => Descriptor
    }

    function WithUuid<V>(v: V): Entry<V> {
      match this
      case ServiceEntry(s, e, _) => ServiceEntry(s, e, v)
      case IncludeEntry(h, s, e, _) => IncludeEntry(h, s, e, v)
      case CharacteristicEntry(h, vh, p, _) => CharacteristicEntry(h, vh, p, v)
      case DescriptorEntry(h, _) => DescriptorEntry(h, v)
    }
  }

  type RawEntry = Entry<seq<byte>>
  type TextEntry = Entry<string>

  // ---- The wire format, as the response layouts in the documentation of the decoders show it ----

  predicate Encodable(e: RawEntry) {
    |e.uuid| < 0x100
  }

  /** The fields before the length of the UUID. */
  function Head(e: RawEntry): seq<byte> {
    match e
    case ServiceEntry(s, e, _) => PackU16(s) + PackU16(e)
    case IncludeEntry(h, s, e, _) => PackU16(h) + PackU16(s) + PackU16(e)
    case CharacteristicEntry(h, vh, p, _) => PackU16(h) + PackU16(vh) + [p]
    case DescriptorEntry(h, _) => PackU16(h)
  }

  function EncodeEntry(e: RawEntry): (b: seq<byte>)
    requires Encodable(e)
  {
    Head(e) + [|e.uuid|] + e.uuid
  }

  function EncodeEntries(es: seq<RawEntry>): seq<byte>
    requires forall e <- es :: Encodable(e)
  {
    if es == [] then [] else EncodeEntry(es[0]) + EncodeEntries(es[1..])
  }

  /** A response can carry up to 255 entries of one kind. */
  predicate Fits(kind: Kind, es: seq<RawEntry>) {
    |es| < 0x100 && EntriesOf(kind, es)
  }

  function EncodeResponse(kind: Kind, es: seq<RawEntry>): seq<byte>
    requires Fits(kind, es)
  {
    [|es|] + EncodeEntries(es)
  }

  /** The bytes of an entry, one by one; handles come low byte first. */
  lemma EntryBytes(e: RawEntry)
    requires Encodable(e)
    ensures var b, n := EncodeEntry(e), |e.uuid|;
            match e
            case ServiceEntry(s, t, u) =>
              b == [s % 256, s / 256, t % 256, t / 256, n] + u
            case IncludeEntry(h, s, t, u) =>
              b == [h % 256, h / 256, s % 256, s / 256, t % 256, t / 256, n] + u
            case CharacteristicEntry(h, vh, p, u) =>
              b == [h % 256, h / 256, vh % 256, vh / 256, p, n] + u
            case DescriptorEntry(h, u) =>
              b == [h % 256, h / 256, n] + u
  {
  }

  // ---- The GATT decoders ----

  /** `struct.unpack_from('%ds' % n, data, off)`. */
  function BytesAt(data: seq<byte>, off: nat, n: nat): Result<seq<byte>> {
    if off + n > |data| then Err(StructError) else Ok(data[off..off + n])
  }

  /** An entry and the number of bytes it takes. */
  type Decoded<U> = Result<(Entry<U>, nat)>

  function GattDecSvcAttr(data: seq<byte>): Decoded<seq<byte>> {
    if |data| < 5 then Err(StructError) else
    var uuid :- BytesAt(data, 5, data[4]);
    Ok((ServiceEntry(UnpackU16(data[0..2]), UnpackU16(data[2..4]), uuid), 5 + data[4] as int))
  }

  function GattDecInclAttr(data: seq<byte>): Decoded<seq<byte>> {
    if |data| < 2 then Err(StructError) else
    var (svc, len) :- GattDecSvcAttr(data[2..]);
    Ok((IncludeEntry(UnpackU16(data[0..2]), svc.startHdl, svc.endHdl, svc.uuid), 2 + len))
  }

  function GattDecChrcAttr(data: seq<byte>): Decoded<seq<byte>> {
    if |data| < 6 then Err(StructError) else
    var uuid :- BytesAt(data, 6, data[5]);
    Ok((CharacteristicEntry(UnpackU16(data[0..2]), UnpackU16(data[2..4]), data[4], uuid), 6 + data[5] as int))
  }

  function GattDecDescAttr(data: seq<byte>): Decoded<seq<byte>> {
    if |data| < 3 then Err(StructError) else
    var uuid :- BytesAt(data, 3, data[2]);
    Ok((DescriptorEntry(UnpackU16(data[0..2]), uuid), 3 + data[2] as int))
  }

  function GattDecAttr(kind: Kind, data: seq<byte>): Decoded<seq<byte>> {
    match kind
    case Service => GattDecSvcAttr(data)
    case Include => GattDecInclAttr(data)
    case Characteristic => GattDecChrcAttr(data)
    case Descriptor => GattDecDescAttr(data)
  }

  /** The entries that the decoding loop takes from the bytes after the count. */
  function EntriesFrom<U>(dec: seq<byte> -> Decoded<U>, cnt: nat, attrs: seq<byte>): Result<seq<Entry<U>>> {
    if cnt == 0 then Ok([])
    else
      var (e, len) :- dec(attrs);
      if len > |attrs| then Err(StructError) else
      var rest :- EntriesFrom(dec, cnt - 1, attrs[len..]);
      Ok([e] + rest)
  }

  function Response<U>(dec: seq<byte> -> Decoded<U>, data: seq<byte>): Result<seq<Entry<U>>> {
    if |data| == 0 then Err(StructError) else EntriesFrom(dec, data[0], data[1..])
  }

  /** What was decoded so far in front of what is still to come from the offset on. */
  function Decoding<U>(dec: seq<byte> -> Decoded<U>, done: seq<Entry<U>>, cnt: nat, attrs: seq<byte>,
      offset: nat): Result<seq<Entry<U>>>
    requires offset <= |attrs|
  {
    var r :- EntriesFrom(dec, cnt, attrs[offset..]);
    Ok(done + r)
  }

  lemma DecodingStart<U>(dec: seq<byte> -> Decoded<U>, cnt: nat, attrs: seq<byte>)
    ensures Decoding(dec, [], cnt, attrs, 0) == EntriesFrom(dec, cnt, attrs)
  {
    assert attrs[0..] == attrs;
    var all := EntriesFrom(dec, cnt, attrs);
    assert all.Ok? ==> [] + all.value == all.value;
  }

  lemma DecodingEnd<U>(dec: seq<byte> -> Decoded<U>, done: seq<Entry<U>>, attrs: seq<byte>, offset: nat)
    requires offset <= |attrs|
    ensures Decoding(dec, done, 0, attrs, offset) == Ok(done)
  {
    assert done + [] == done;
  }

  /** One round of the decoding loop. */
  lemma DecodingRound<U>(dec: seq<byte> -> Decoded<U>, done: seq<Entry<U>>, cnt: nat, attrs: seq<byte>, offset: nat)
    requires cnt > 0 && offset <= |attrs|
    requires dec(attrs[offset..]).Ok? ==> dec(attrs[offset..]).value.1 <= |attrs[offset..]|
    ensures var d := dec(attrs[offset..]);
            && (d.Err? ==> Decoding(dec, done, cnt, attrs, offset) == Err(d.error))
            && (d.Ok? ==>
                  var (e, len) := d.value;
                  offset + len <= |attrs|
                  && Decoding(dec, done, cnt, attrs, offset) == Decoding(dec, done + [e], cnt - 1, attrs, offset + len))
  {
    if dec(attrs[offset..]).Ok? {
      var (e, len) := dec(attrs[offset..]).value;
      assert attrs[offset..][len..] == attrs[offset + len..];
      var rest := EntriesFrom(dec, cnt - 1, attrs[offset + len..]);
      if rest.Ok? {
        assert done + ([e] + rest.value) == done + [e] + rest.value;
      }
    }
  }

  /** The loop of both discovery decoders: walks the entries by offset and ignores what follows them. */
  method DecodeEntries<U>(dec: seq<byte> -> Decoded<U>, attrCnt: nat, attrs: seq<byte>)
      returns (r: Result<seq<Entry<U>>>)
    requires forall b :: dec(b).Ok? ==> dec(b).value.1 <= |b|
    ensures r == EntriesFrom(dec, attrCnt, attrs)
  {
    var attrsList: seq<Entry<U>> := [];
    var offset, x := 0, 0;
    ghost var all := EntriesFrom(dec, attrCnt, attrs);
    DecodingStart(dec, attrCnt, attrs);
    while x < attrCnt
      invariant 0 <= offset <= |attrs| && x <= attrCnt
      invariant all == Decoding(dec, attrsList, attrCnt - x, attrs, offset)
    {
      DecodingRound(dec, attrsList, attrCnt - x, attrs, offset);
      var d := dec(attrs[offset..]);
      if d.Err? {
        return Err(d.error);
      }
      attrsList := attrsList + [d.value.0];
      offset := offset + d.value.1;
      x := x + 1;
    }
    DecodingEnd(dec, attrsList, attrs, offset);
    return Ok(attrsList);
  }

  function Decoder(kind: Kind): seq<byte> -> Decoded<seq<byte>> {
    data => GattDecAttr(kind, data)
  }

  function DecEntries(kind: Kind, cnt: nat, attrs: seq<byte>): Result<seq<RawEntry>> {
    EntriesFrom(Decoder(kind), cnt, attrs)
  }

  /** What `gatt_dec_disc_rsp` returns. */
  function DecDiscRsp(kind: Kind, data: seq<byte>): Result<seq<RawEntry>> {
    Response(Decoder(kind), data)
  }

  /** A decoder accepts exactly the bytes that start with an encoded entry. */
  lemma DecAttrExact(kind: Kind, data: seq<byte>)
    ensures GattDecAttr(kind, data).Ok? ==>
              var (e, len) := GattDecAttr(kind, data).value;
              && e.KindOf() == kind && Encodable(e)
              && len <= |data| && data[..len] == EncodeEntry(e)
  {
    var r := GattDecAttr(kind, data);
    if r.Ok? {
      var (e, len) := r.value;
      match kind {
        case Service =>
          UnpackPackU16(data[0..2]);
          UnpackPackU16(data[2..4]);
          assert data[..len] == data[0..2] + data[2..4] + [data[4]] + data[5..len];
        case Include =>
          UnpackPackU16(data[0..2]);
          var d := data[2..];
          UnpackPackU16(d[0..2]);
          UnpackPackU16(d[2..4]);
          assert data[..len] == data[0..2] + d[0..2] + d[2..4] + [d[4]] + d[5..len - 2];
        case Characteristic =>
          UnpackPackU16(data[0..2]);
          UnpackPackU16(data[2..4]);
          assert data[..len] == data[0..2] + data[2..4] + [data[4]] + [data[5]] + data[6..len];
        case Descriptor =>
          UnpackPackU16(data[0..2]);
          assert data[..len] == data[0..2] + [data[2]] + data[3..len];
      }
    }
  }

  /** Where the parts of an encoded entry lie. */
  lemma PartsOfEncoded(head: seq<byte>, u: seq<byte>, tail: seq<byte>)
    requires |u| < 0x100
    ensures var data := head + [|u|] + u + tail;
            && data[..|head|] == head && data[|head|] == |u|
            && BytesAt(data, |head| + 1, |u|) == Ok(u)
  {
  }

  lemma DecAttrOfEncoded(e: RawEntry, tail: seq<byte>)
    requires Encodable(e)
    ensures GattDecAttr(e.KindOf(), EncodeEntry(e) + tail) == Ok((e, |EncodeEntry(e)|))
  {
    var data, head := EncodeEntry(e) + tail, Head(e);
    PartsOfEncoded(head, e.uuid, tail);
    match e {
      case ServiceEntry(s, t, _) => DecSvcOfEncoded(s, t, e.uuid, tail);
      case IncludeEntry(h, s, t, u) =>
        PackUnpackU16(h);
        DecSvcOfEncoded(s, t, u, tail);
        assert data[0..2] == PackU16(h);
        assert data[2..] == EncodeEntry(ServiceEntry(s, t, u)) + tail;
      case CharacteristicEntry(h, vh, p, _) =>
        PackUnpackU16(h);
        PackUnpackU16(vh);
        assert data[0..2] == head[0..2] == PackU16(h) && data[2..4] == head[2..4] == PackU16(vh);
        assert data[4] == head[4] == p;
      case DescriptorEntry(h, _) =>
        PackUnpackU16(h);
        assert data[0..2] == head[0..2] == PackU16(h);
    }
  }

  lemma DecSvcOfEncoded(s: u16, t: u16, u: seq<byte>, tail: seq<byte>)
    requires |u| < 0x100
    ensures var e: RawEntry := ServiceEntry(s, t, u);
            GattDecSvcAttr(EncodeEntry(e) + tail) == Ok((e, |EncodeEntry(e)|))
  {
    var e: RawEntry := ServiceEntry(s, t, u);
    var data, head := EncodeEntry(e) + tail, Head(e);
    PartsOfEncoded(head, u, tail);
    PackUnpackU16(s);
    PackUnpackU16(t);
    assert data[0..2] == head[0..2] == PackU16(s) && data[2..4] == head[2..4] == PackU16(t);
  }

  predicate EntriesOf(kind: Kind, es: seq<RawEntry>) {
    forall e <- es :: Encodable(e) && e.KindOf() == kind
  }

  lemma {:induction false} DecEntriesSound(kind: Kind, cnt: nat, attrs: seq<byte>)
    requires DecEntries(kind, cnt, attrs).Ok?
    ensures var es := DecEntries(kind, cnt, attrs).value;
            |es| == cnt && EntriesOf(kind, es) && EncodeEntries(es) <= attrs
  {
    if cnt > 0 {
      DecAttrExact(kind, attrs);
      var (e, len) := GattDecAttr(kind, attrs).value;
      var rest := DecEntries(kind, cnt - 1, attrs[len..]).value;
      DecEntriesSound(kind, cnt - 1, attrs[len..]);
      assert ([e] + rest)[1..] == rest;
      assert attrs == EncodeEntry(e) + attrs[len..];
    }
  }

  lemma DecEntriesStep(kind: Kind, e: RawEntry, es: seq<RawEntry>, more: seq<byte>)
    requires e.KindOf() == kind && Encodable(e)
    requires DecEntries(kind, |es|, more) == Ok(es)
    ensures DecEntries(kind, |es| + 1, EncodeEntry(e) + more) == Ok([e] + es)
  {
    DecAttrOfEncoded(e, more);
    assert (EncodeEntry(e) + more)[|EncodeEntry(e)|..] == more;
  }

  lemma {:induction false} DecEntriesComplete(kind: Kind, es: seq<RawEntry>, tail: seq<byte>)
    requires EntriesOf(kind, es)
    ensures DecEntries(kind, |es|, EncodeEntries(es) + tail) == Ok(es)
  {
    if es != [] {
      var more := EncodeEntries(es[1..]) + tail;
      DecEntriesComplete(kind, es[1..], tail);
      DecEntriesStep(kind, es[0], es[1..], more);
      assert EncodeEntries(es) + tail == EncodeEntry(es[0]) + more;
      assert es == [es[0]] + es[1..];
    }
  }

  lemma DecEntriesExact(kind: Kind, cnt: nat, attrs: seq<byte>, es: seq<RawEntry>)
    ensures DecEntries(kind, cnt, attrs) == Ok(es) <==>
            |es| == cnt && EntriesOf(kind, es) && EncodeEntries(es) <= attrs
  {
    if DecEntries(kind, cnt, attrs) == Ok(es) {
      DecEntriesSound(kind, cnt, attrs);
    } else if |es| == cnt && EntriesOf(kind, es) && EncodeEntries(es) <= attrs {
      var b := EncodeEntries(es);
      assert b + attrs[|b|..] == attrs;
      DecEntriesComplete(kind, es, attrs[|b|..]);
    }
  }

  /** `gatt_dec_disc_rsp`. */
  method GattDecDiscRsp(data: seq<byte>, kind: Kind) returns (r: Result<seq<RawEntry>>)
    ensures r == DecDiscRsp(kind, data)
  {
    forall b ensures Decoder(kind)(b).Ok? ==> Decoder(kind)(b).value.1 <= |b| {
      DecAttrExact(kind, b);
    }
    if |data| == 0 {
      return Err(StructError);
    }
    r := DecodeEntries(Decoder(kind), data[0], data[1..]);
  }

  /** Decoding yields a list exactly when the response is that list's encoding, with perhaps more behind it. */
  lemma DiscRspExact(kind: Kind, data: seq<byte>, es: seq<RawEntry>)
    ensures DecDiscRsp(kind, data) == Ok(es) <==> Fits(kind, es) && EncodeResponse(kind, es) <= data
  {
    if |data| > 0 {
      DecEntriesExact(kind, data[0], data[1..], es);
      assert data == [data[0]] + data[1..];
    }
  }

  /** Every list that fits a response survives the round trip. */
  lemma DiscRspRoundTrip(kind: Kind, es: seq<RawEntry>)
    requires Fits(kind, es)
    ensures DecDiscRsp(kind, EncodeResponse(kind, es)) == Ok(es)
  {
    DiscRspExact(kind, EncodeResponse(kind, es), es);
  }

  // ---- The GATT_CL decoders, which turn UUIDs into text as they go ----

  function GattClDecSvcAttr(data: seq<byte>): Decoded<string> {
    if |data| < 5 then Err(StructError) else
    var uuid :- BytesAt(data, 5, data[4]);
    var text :- Btp2Uuid(data[4], uuid);
    Ok((ServiceEntry(UnpackU16(data[0..2]), UnpackU16(data[2..4]), text), 5 + data[4] as int))
  }

  function GattClDecInclAttr(data: seq<byte>): Decoded<string> {
    if |data| < 2 then Err(StructError) else
    var (svc, len) :- GattClDecSvcAttr(data[2..]);
    Ok((IncludeEntry(UnpackU16(data[0..2]), svc.startHdl, svc.endHdl, svc.uuid), 2 + len))
  }

  function GattClDecChrcAttr(data: seq<byte>): Decoded<string> {
    if |data| < 6 then Err(StructError) else
    var uuid :- BytesAt(data, 6, data[5]);
    var text :- Btp2Uuid(data[5], uuid);
    Ok((CharacteristicEntry(UnpackU16(data[0..2]), UnpackU16(data[2..4]), data[4], text), 6 + data[5] as int))
  }

  function GattClDecDescAttr(data: seq<byte>): Decoded<string> {
    if |data| < 3 then Err(StructError) else
    var uuid :- BytesAt(data, 3, data[2]);
    var text :- Btp2Uuid(data[2], uuid);
    Ok((DescriptorEntry(UnpackU16(data[0..2]), text), 3 + data[2] as int))
  }

  function GattClDecAttr(kind: Kind, data: seq<byte>): Decoded<string> {
    match kind
    case Service => GattClDecSvcAttr(data)
    case Include => GattClDecInclAttr(data)
    case Characteristic => GattClDecChrcAttr(data)
    case Descriptor => GattClDecDescAttr(data)
  }

  function ClDecoder(kind: Kind): seq<byte> -> Decoded<string> {
    data => GattClDecAttr(kind, data)
  }

  function ClDecEntries(kind: Kind, cnt: nat, attrs: seq<byte>): Result<seq<TextEntry>> {
    EntriesFrom(ClDecoder(kind), cnt, attrs)
  }

  /** What `gatt_cl_dec_disc_rsp` returns. */
  function ClDecDiscRsp(kind: Kind, data: seq<byte>): Result<seq<TextEntry>> {
    Response(ClDecoder(kind), data)
  }

  /** `gatt_cl_dec_disc_rsp`. */
  method GattClDecDiscRsp(data: seq<byte>, kind: Kind) returns (r: Result<seq<TextEntry>>)
    ensures r == ClDecDiscRsp(kind, data)
  {
    forall b ensures ClDecoder(kind)(b).Ok? ==> ClDecoder(kind)(b).value.1 <= |b| {
      ClDecAttrRefines(kind, b);
      DecAttrExact(kind, b);
    }
    if |data| == 0 {
      return Err(StructError);
    }
    r := DecodeEntries(ClDecoder(kind), data[0], data[1..]);
  }

  /** An entry with the text of its UUID. */
  function Textual(e: RawEntry): TextEntry {
    e.WithUuid(UuidText(e.uuid))
  }

  function TextualAll(es: seq<RawEntry>): (ts: seq<TextEntry>)
    ensures |ts| == |es|
  {
    if es == [] then [] else [Textual(es[0])] + TextualAll(es[1..])
  }

  lemma ClDecAttrRefines(kind: Kind, data: seq<byte>)
    ensures GattClDecAttr(kind, data).Ok? <==>
            GattDecAttr(kind, data).Ok? && IsUuid(GattDecAttr(kind, data).value.0.uuid)
    ensures GattClDecAttr(kind, data).Ok? ==>
              var (e, len) := GattDecAttr(kind, data).value;
              GattClDecAttr(kind, data) == Ok((Textual(e), len))
  {
    var r := GattDecAttr(kind, data);
    if r.Ok? {
      Btp2UuidIsHex(r.value.0.uuid);
    }
  }

  predicate AllUuids(es: seq<RawEntry>) {
    forall e <- es :: IsUuid(e.uuid)
  }

  lemma ConsEntry(e: RawEntry, es: seq<RawEntry>)
    ensures AllUuids([e] + es) <==> IsUuid(e.uuid) && AllUuids(es)
    ensures TextualAll([e] + es) == [Textual(e)] + TextualAll(es)
  {
    assert ([e] + es)[0] == e && ([e] + es)[1..] == es;
    assert forall x :: x in [e] + es <==> x == e || x in es;
  }

  /** A decoder to text does what a raw decoder does, on the UUIDs it can write. */
  predicate AttrRefines(text: Decoded<string>, raw: Decoded<seq<byte>>, data: seq<byte>) {
    && (raw.Ok? ==> raw.value.1 <= |data|)
    && (text.Ok? <==> raw.Ok? && IsUuid(raw.value.0.uuid))
    && (text.Ok? ==> text == Ok((Textual(raw.value.0), raw.value.1)))
  }

  lemma {:induction false} EntriesRefine(text: seq<byte> -> Decoded<string>, raw: seq<byte> -> Decoded<seq<byte>>,
      cnt: nat, attrs: seq<byte>)
    requires forall b :: AttrRefines(text(b), raw(b), b)
    ensures var es, ts := EntriesFrom(raw, cnt, attrs), EntriesFrom(text, cnt, attrs);
            && (ts.Ok? <==> es.Ok? && AllUuids(es.value))
            && (ts.Ok? ==> ts == Ok(TextualAll(es.value)))
  {
    if cnt > 0 {
      assert AttrRefines(text(attrs), raw(attrs), attrs);
      if raw(attrs).Ok? {
        var (e, len) := raw(attrs).value;
        EntriesRefine(text, raw, cnt - 1, attrs[len..]);
        var rest := EntriesFrom(raw, cnt - 1, attrs[len..]);
        if rest.Ok? {
          ConsEntry(e, rest.value);
        }
      }
    }
  }

  lemma ClDecEntriesRefine(kind: Kind, cnt: nat, attrs: seq<byte>)
    ensures var raw, text := DecEntries(kind, cnt, attrs), ClDecEntries(kind, cnt, attrs);
            && (text.Ok? <==> raw.Ok? && AllUuids(raw.value))
            && (text.Ok? ==> text == Ok(TextualAll(raw.value)))
  {
    forall b ensures AttrRefines(ClDecoder(kind)(b), Decoder(kind)(b), b) {
      ClDecAttrRefines(kind, b);
      DecAttrExact(kind, b);
    }
    EntriesRefine(ClDecoder(kind), Decoder(kind), cnt, attrs);
  }

  /** The GATT_CL decoder succeeds exactly on the UUIDs it can write as text, with the same entries. */
  lemma ClDecDiscRspRefines(kind: Kind, data: seq<byte>)
    ensures ClDecDiscRsp(kind, data).Ok? <==>
            DecDiscRsp(kind, data).Ok? && AllUuids(DecDiscRsp(kind, data).value)
    ensures ClDecDiscRsp(kind, data).Ok? ==>
              ClDecDiscRsp(kind, data) == Ok(TextualAll(DecDiscRsp(kind, data).value))
  {
    if |data| > 0 {
      ClDecEntriesRefine(kind, data[0], data[1..]);
    }
  }
}
