/** The server's attribute list as the device reports it (pybtp/btp.py, dec_gatts_get_attrs_rp). */
module AttrList {
  import opened Bytes
  import opened Text

  /** An attribute with its type as bytes, as sent, and as text, as decoded. */
  datatype RawAttr = RawAttr(handle: u16, perm: byte, typeUuid: seq<byte>)
  datatype Attribute = Attribute(handle: u16, perm: byte, typeUuid: string)

  function Decode(a: RawAttr): Attribute {
    Attribute(a.handle, a.perm, UuidText(a.typeUuid))
  }

  function DecodeAll(l: seq<RawAttr>): (r: seq<Attribute>)
    ensures |r| == |l|
    ensures forall i | 0 <= i < |l| :: r[i] == Decode(l[i])
  {
    if l == [] then [] else [Decode(l[0])] + DecodeAll(l[1..])
  }

  predicate Encodable(l: seq<RawAttr>) {
    forall a <- l :: IsUuid(a.typeUuid)
  }

  function EncodeAttr(a: RawAttr): seq<byte>
    requires IsUuid(a.typeUuid)
  {
    PackU16(a.handle) + [a.perm, |a.typeUuid|] + a.typeUuid
  }

  function EncodeAttrs(l: seq<RawAttr>): seq<byte>
    requires Encodable(l)
  {
    if l == [] then [] else EncodeAttr(l[0]) + EncodeAttrs(l[1..])
  }

  /** The bytes of an attribute, one by one. */
  lemma AttrBytes(a: RawAttr)
    requires IsUuid(a.typeUuid)
    ensures EncodeAttr(a) == [a.handle % 256, a.handle / 256, a.perm, |a.typeUuid|] + a.typeUuid
  {
  }

  /** One attribute at the front of the bytes, and the bytes after it. */
  function DecAttr(attrs: seq<byte>): Result<(Attribute, seq<byte>)> {
    if |attrs| < 4 || |attrs| < 4 + attrs[3] as int then Err(StructError)
    else
      var n := attrs[3] as int;
      var typeUuid :- Btp2Uuid(n, attrs[4..4 + n]);
      Ok((Attribute(UnpackU16(attrs[..2]), attrs[2], typeUuid), attrs[4 + n..]))
  }

  function DecAttrs(cnt: nat, attrs: seq<byte>): Result<seq<Attribute>> {
    if cnt == 0 then Ok([])
    else
      var (a, rest) :- DecAttr(attrs);
      var more :- DecAttrs(cnt - 1, rest);
      Ok([a] + more)
  }

  /** The specification of the decoding loop; the length comes from the frame header. */
  function DecRsp(data: seq<byte>, dataLen: nat): Result<seq<Attribute>> {
    if dataLen == 0 || dataLen != |data| then Err(StructError) else DecAttrs(data[0], data[1..])
  }

  lemma DecAttrsStep(done: seq<Attribute>, cnt: nat, attrs: seq<byte>, all: Result<seq<Attribute>>)
    requires cnt > 0
    requires all == if DecAttrs(cnt, attrs).Ok? then Ok(done + DecAttrs(cnt, attrs).value)
                    else Err(DecAttrs(cnt, attrs).error)
    ensures DecAttr(attrs).Err? ==> all == Err(DecAttr(attrs).error)
    ensures DecAttr(attrs).Ok? ==>
              var (a, rest) := DecAttr(attrs).value;
              var more := DecAttrs(cnt - 1, rest);
              all == if more.Ok? then Ok(done + [a] + more.value) else Err(more.error)
  {
    if DecAttr(attrs).Ok? && DecAttrs(cnt, attrs).Ok? {
      var (a, rest) := DecAttr(attrs).value;
      assert done + ([a] + DecAttrs(cnt - 1, rest).value) == done + [a] + DecAttrs(cnt - 1, rest).value;
    }
  }

  /** `dec_gatts_get_attrs_rp`: keeps the length of what is left beside what is left. */
  method DecGattsGetAttrsRp(data: seq<byte>, frameLen: nat) returns (r: Result<seq<Attribute>>)
    ensures r == DecRsp(data, frameLen)
  {
    var dataLen := frameLen - 1;
    if dataLen < 0 || |data| != 1 + dataLen {
      return Err(StructError);
    }
    var attrCount: int, attrs := data[0], data[1..];
    var attributes: seq<Attribute> := [];
    ghost var all := DecAttrs(attrCount, attrs);
    assert all.Ok? ==> [] + all.value == all.value;
    while attrCount - 1 >= 0
      invariant attrCount >= 0
      // the running length is the number of bytes left
      invariant dataLen == |attrs|
      invariant var more := DecAttrs(attrCount, attrs);
                all == if more.Ok? then Ok(attributes + more.value) else Err(more.error)
    {
      DecAttrsStep(attributes, attrCount, attrs, all);
      dataLen := dataLen - 4;
      if dataLen < 0 {
        return Err(StructError);
      }
      var handle, permission, typeUuidLen := UnpackU16(attrs[..2]), attrs[2], attrs[3] as int;
      var frag := attrs[4..];
      dataLen := dataLen - typeUuidLen;
      if dataLen < 0 {
        return Err(StructError);
      }
      var typeUuid := Btp2Uuid(typeUuidLen, frag[..typeUuidLen]);
      assert frag[..typeUuidLen] == attrs[4..4 + typeUuidLen] && frag[typeUuidLen..] == attrs[4 + typeUuidLen..];
      if typeUuid.Err? {
        return Err(typeUuid.error);
      }
      attrs := frag[typeUuidLen..];
      attributes := attributes + [Attribute(handle, permission, typeUuid.value)];
      attrCount := attrCount - 1;
    }
    assert attributes + [] == attributes;
    return Ok(attributes);
  }

  lemma DecAttrOfEncoded(a: RawAttr, tail: seq<byte>)
    requires IsUuid(a.typeUuid)
    ensures DecAttr(EncodeAttr(a) + tail) == Ok((Decode(a), tail))
  {
    var b := EncodeAttr(a) + tail;
    var n := |a.typeUuid|;
    assert b[..2] == PackU16(a.handle) && b[4..4 + n] == a.typeUuid && b[4 + n..] == tail;
    PackUnpackU16(a.handle);
    Btp2UuidIsHex(a.typeUuid);
  }

  lemma DecAttrSound(b: seq<byte>) returns (a: RawAttr)
    requires DecAttr(b).Ok?
    ensures IsUuid(a.typeUuid) && Decode(a) == DecAttr(b).value.0
    ensures b == EncodeAttr(a) + DecAttr(b).value.1
  {
    var n := b[3] as int;
    a := RawAttr(UnpackU16(b[..2]), b[2], b[4..4 + n]);
    Btp2UuidIsHex(a.typeUuid);
    UnpackPackU16(b[..2]);
    assert b[2..4] == [b[2], b[3]];
    assert b == b[..2] + b[2..4] + b[4..4 + n] + b[4 + n..];
  }

  lemma {:induction false} DecAttrsSound(cnt: nat, b: seq<byte>) returns (l: seq<RawAttr>)
    requires DecAttrs(cnt, b).Ok?
    ensures |l| == cnt && Encodable(l) && DecAttrs(cnt, b) == Ok(DecodeAll(l))
    ensures EncodeAttrs(l) <= b
  {
    if cnt == 0 {
      l := [];
    } else {
      var a := DecAttrSound(b);
      var rest := DecAttr(b).value.1;
      var l' := DecAttrsSound(cnt - 1, rest);
      l := [a] + l';
      assert l[1..] == l';
    }
  }

  lemma {:induction false} DecAttrsComplete(l: seq<RawAttr>, tail: seq<byte>)
    requires Encodable(l)
    ensures DecAttrs(|l|, EncodeAttrs(l) + tail) == Ok(DecodeAll(l))
  {
    if l != [] {
      var b, more := EncodeAttr(l[0]), EncodeAttrs(l[1..]);
      DecAttrOfEncoded(l[0], more + tail);
      Associative(b, more, tail);
      DecAttrsComplete(l[1..], tail);
    }
  }

  lemma {:induction false} DecodeAllInjective(l: seq<RawAttr>, m: seq<RawAttr>)
    requires DecodeAll(l) == DecodeAll(m)
    ensures l == m
  {
    assert |l| == |m|;
    forall i | 0 <= i < |l|
      ensures l[i] == m[i]
    {
      assert Decode(l[i]) == DecodeAll(l)[i] == Decode(m[i]);
      UuidTextInjective(l[i].typeUuid, m[i].typeUuid);
    }
  }

  lemma PrefixOfRest(x: byte, e: seq<byte>, data: seq<byte>)
    requires [x] + e <= data
    ensures data[0] == x && data[1..] == e + data[1 + |e|..]
  {
    assert data[1..1 + |e|] == e;
  }

  lemma DecRspComplete(data: seq<byte>, l: seq<RawAttr>)
    requires Encodable(l) && |l| < 0x100 && [|l|] + EncodeAttrs(l) <= data
    ensures DecRsp(data, |data|) == Ok(DecodeAll(l))
  {
    var e := EncodeAttrs(l);
    var tail := data[1 + |e|..];
    PrefixOfRest(|l|, e, data);
    DecAttrsComplete(l, tail);
  }

  lemma DecRspSound(data: seq<byte>, l: seq<RawAttr>)
    requires Encodable(l) && DecRsp(data, |data|) == Ok(DecodeAll(l))
    ensures |l| < 0x100 && [|l|] + EncodeAttrs(l) <= data
  {
    var m := DecAttrsSound(data[0], data[1..]);
    DecodeAllInjective(l, m);
    CountThenRest(data, EncodeAttrs(l));
  }

  lemma CountThenRest(data: seq<byte>, e: seq<byte>)
    requires data != [] && e <= data[1..]
    ensures [data[0]] + e <= data
  {
    assert data == [data[0]] + data[1..];
  }

  /** Decoding gives a list exactly when the bytes are its encoding, with perhaps more behind it. */
  lemma DecRspExact(data: seq<byte>, l: seq<RawAttr>)
    requires Encodable(l)
    ensures DecRsp(data, |data|) == Ok(DecodeAll(l)) <==> |l| < 0x100 && [|l|] + EncodeAttrs(l) <= data
  {
    if DecRsp(data, |data|) == Ok(DecodeAll(l)) {
      DecRspSound(data, l);
    } else if |l| < 0x100 && [|l|] + EncodeAttrs(l) <= data {
      DecRspComplete(data, l);
    }
  }

  /** Any list of up to 255 attributes comes back unchanged, with its types as text. */
  lemma AttrListRoundTrip(l: seq<RawAttr>)
    requires Encodable(l) && |l| < 0x100
    ensures var data := [|l|] + EncodeAttrs(l);
            DecRsp(data, |data|) == Ok(DecodeAll(l))
  {
    DecRspExact([|l|] + EncodeAttrs(l), l);
  }
}
