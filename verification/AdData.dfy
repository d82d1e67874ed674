/** Advertising data (pybtp/btp.py, testcases/utils.py). */
module AdData {
  import opened Bytes
  import opened Text

  const UUID16_SOME: byte := 0x02
  const UUID16_FULL: byte := 0x03

  datatype Record = Record(adType: byte, data: seq<byte>)

  /** A structure: its length, its type, its data. */
  predicate Encodable(r: Record) {
    |r.data| < 0xff
  }

  function Encode(r: Record): seq<byte>
    requires Encodable(r)
  {
    [|r.data| + 1, r.adType] + r.data
  }

  function EncodeAll(rs: seq<Record>): seq<byte>
    requires forall r <- rs :: Encodable(r)
  {
    if rs == [] then [] else Encode(rs[0]) + EncodeAll(rs[1..])
  }

  /** The records of advertising data; what `parse_ad` computes from a position on. */
  function Records(ad: seq<byte>): Result<seq<Record>> {
    if ad == [] then Ok([])
    else
      var length := ad[0] as int;
      if |ad| < 1 + length then Err(AssertionError)
      else if length == 0 then Err(IndexError)
      else
        var more :- Records(ad[1 + length..]);
        Ok([Record(ad[1], ad[2..1 + length])] + more)
  }

  lemma SliceOfSlice(ad: seq<byte>, pos: nat, length: nat)
    requires 0 < pos && pos + length <= |ad| && length > 0
    ensures ad[pos..pos + length][1..length] == ad[pos - 1..][2..1 + length]
    ensures ad[pos + length..] == ad[pos - 1..][1 + length..]
  {
    assert ad[pos..pos + length][1..length] == ad[pos + 1..pos + length];
    assert ad[pos - 1..][2..1 + length] == ad[pos + 1..pos + length];
  }

  /** What was parsed so far in front of what is still to come. */
  function Parsing(had: seq<Record>, ad: seq<byte>): Result<seq<Record>> {
    var more :- Records(ad);
    Ok(had + more)
  }

  lemma ParsingEnds(rs: seq<Record>, ad: seq<byte>)
    ensures Parsing([], ad) == Records(ad) && Parsing(rs, []) == Ok(rs)
  {
    assert rs + [] == rs;
    assert Records(ad).Ok? ==> [] + Records(ad).value == Records(ad).value;
  }

  /** One round of the loop, at a complete structure. */
  lemma ParsingRound(had: seq<Record>, ad: seq<byte>, pos: nat)
    requires pos < |ad| && ad[pos] > 0 && pos + 1 + ad[pos] as int <= |ad|
    ensures var n := ad[pos] as int;
            var data := ad[pos + 1..pos + 1 + n];
            Parsing(had, ad[pos..]) == Parsing(had + [Record(data[0], data[1..n])], ad[pos + 1 + n..])
  {
    var n := ad[pos] as int;
    SliceOfSlice(ad, pos + 1, n);
    var more := Records(ad[pos + 1 + n..]);
    if more.Ok? {
      Associative(had, [Record(ad[pos..][1], ad[pos..][2..1 + n])], more.value);
    }
  }

  /** `parse_ad`. A slice that runs past the end is shorter than asked for, which the assertion notices. */
  method ParseAd(ad: seq<byte>) returns (r: Result<seq<Record>>)
    ensures r == Records(ad)
  {
    var pos := 0;
    var totalLen := |ad|;
    var records: seq<Record> := [];
    ghost var all := Records(ad);
    assert ad[0..] == ad;
    ParsingEnds([], ad);
    while pos < totalLen
      invariant 0 <= pos <= |ad| == totalLen
      invariant all == Parsing(records, ad[pos..])
    {
      ghost var here := pos;
      var length := ad[pos] as int;
      pos := pos + 1;
      var data := if pos + length <= |ad| then ad[pos..pos + length] else ad[pos..];
      if |data| != length {
        return Err(AssertionError);
      }
      if length == 0 {
        return Err(IndexError);
      }
      ParsingRound(records, ad, here);
      records := records + [Record(data[0], data[1..length])];
      pos := pos + length;
    }
    ParsingEnds(records, ad);
    return Ok(records);
  }

  /** A complete structure in front. */
  lemma RecordsOfFirst(r: Record, rest: seq<byte>)
    requires Encodable(r)
    ensures Records(Encode(r) + rest) == Parsing([r], rest)
  {
    var ad, n := Encode(r) + rest, |r.data|;
    assert ad[2..2 + n] == r.data && ad[2 + n..] == rest;
  }

  lemma {:induction false} RecordsOfEncoded(rs: seq<Record>)
    requires forall r <- rs :: Encodable(r)
    ensures Records(EncodeAll(rs)) == Ok(rs)
  {
    if rs != [] {
      RecordsOfFirst(rs[0], EncodeAll(rs[1..]));
      RecordsOfEncoded(rs[1..]);
      assert rs == [rs[0]] + rs[1..];
    }
  }

  /** The structure at the front of the data, and what is behind it. */
  lemma FirstStructure(ad: seq<byte>)
    requires ad != [] && 0 < ad[0] as int < |ad|
    ensures var n := ad[0] as int;
            var r := Record(ad[1], ad[2..1 + n]);
            Encodable(r) && Encode(r) + ad[1 + n..] == ad
  {
    var n := ad[0] as int;
    assert [|ad[2..1 + n]| + 1, ad[1]] == ad[..2];
  }

  lemma EncodeCons(r: Record, rs: seq<Record>)
    requires Encodable(r) && forall x <- rs :: Encodable(x)
    ensures (forall x <- [r] + rs :: Encodable(x)) && EncodeAll([r] + rs) == Encode(r) + EncodeAll(rs)
  {
    assert ([r] + rs)[1..] == rs;
  }

  lemma {:induction false} RecordsSound(ad: seq<byte>)
    requires Records(ad).Ok?
    ensures forall r <- Records(ad).value :: Encodable(r)
    ensures EncodeAll(Records(ad).value) == ad
  {
    if ad != [] {
      var n := ad[0] as int;
      FirstStructure(ad);
      RecordsSound(ad[1 + n..]);
      EncodeCons(Record(ad[1], ad[2..1 + n]), Records(ad[1 + n..]).value);
    }
  }

  /** Parsing succeeds exactly on concatenations of complete, non-empty structures, and undoes them. */
  lemma ParseAdExact(ad: seq<byte>, rs: seq<Record>)
    ensures Records(ad) == Ok(rs) <==> (forall r <- rs :: Encodable(r)) && ad == EncodeAll(rs)
  {
    if Records(ad) == Ok(rs) {
      RecordsSound(ad);
    }
    if (forall r <- rs :: Encodable(r)) && ad == EncodeAll(rs) {
      RecordsOfEncoded(rs);
    }
  }

  /** Early termination: a zero length after the structures is rejected, not skipped. */
  lemma {:induction false} PaddingRejected(rs: seq<Record>, padding: seq<byte>)
    requires forall r <- rs :: Encodable(r)
    requires padding != [] && padding[0] == 0
    ensures Records(EncodeAll(rs) + padding) == Err(IndexError)
  {
    if rs == [] {
      assert [] + padding == padding;
    } else {
      Associative(Encode(rs[0]), EncodeAll(rs[1..]), padding);
      RecordsOfFirst(rs[0], EncodeAll(rs[1..]) + padding);
      PaddingRejected(rs[1..], padding);
    }
  }

  /** The 16-bit UUIDs of one record: pieces of two bytes, the last of which may be one byte. */
  function SplitUuids(data: seq<byte>): Result<seq<string>> {
    if data == [] then Ok([])
    else
      var u := if |data| < 2 then data else data[..2];
      var text :- Btp2Uuid(|u|, u);
      var more :- SplitUuids(data[|u|..]);
      Ok([text] + more)
  }

  /** `ad_find_uuid16`. */
  function AdFindUuid16(ad: seq<Record>): Result<seq<string>> {
    if ad == [] then Ok([])
    else
      var here :- if CarriesUuid16(ad[0]) then SplitUuids(ad[0].data) else Ok([]);
      var more :- AdFindUuid16(ad[1..]);
      Ok(here + more)
  }

  /** The k-th two bytes. */
  function Piece(data: seq<byte>, k: nat): seq<byte>
    requires k < |data| / 2
  {
    data[2 * k..2 * k + 2]
  }

  lemma PieceOfRest(data: seq<byte>, k: nat)
    requires 0 < k < |data| / 2
    ensures Piece(data[2..], k - 1) == Piece(data, k)
  {
    assert 2 + 2 * (k - 1) == 2 * k;
  }

  lemma {:induction false} SplitUuidsExact(data: seq<byte>)
    ensures SplitUuids(data).Ok? <==> |data| % 2 == 0
    ensures SplitUuids(data).Ok? ==>
              && |SplitUuids(data).value| == |data| / 2
              && forall k | 0 <= k < |data| / 2 :: SplitUuids(data).value[k] == UuidText(Piece(data, k))
  {
    if |data| == 1 {
      Btp2UuidIsHex(data);
    } else if |data| >= 2 {
      Btp2UuidIsHex(data[..2]);
      SplitUuidsExact(data[2..]);
      assert Piece(data, 0) == data[..2];
      forall k | 0 < k < |data| / 2 ensures Piece(data[2..], k - 1) == Piece(data, k) {
        PieceOfRest(data, k);
      }
    }
  }

  predicate CarriesUuid16(r: Record) {
    r.adType == UUID16_SOME || r.adType == UUID16_FULL
  }

  /** One of the record's UUIDs has the text. */
  predicate Lists(r: Record, text: string) {
    CarriesUuid16(r) && exists k | 0 <= k < |r.data| / 2 :: text == UuidText(Piece(r.data, k))
  }

  lemma {:induction false} FoundUuids(ad: seq<Record>, text: string)
    ensures AdFindUuid16(ad).Ok? <==> forall r <- ad :: CarriesUuid16(r) ==> |r.data| % 2 == 0
    ensures AdFindUuid16(ad).Ok? ==> (text in AdFindUuid16(ad).value <==> exists r <- ad :: Lists(r, text))
  {
    if ad != [] {
      var r := ad[0];
      FoundUuids(ad[1..], text);
      SplitUuidsExact(r.data);
      assert forall x :: x in ad <==> x == r || x in ad[1..] by {
        assert ad == [r] + ad[1..];
      }
      if AdFindUuid16(ad).Ok? && CarriesUuid16(r) {
        var here := SplitUuids(r.data).value;
        if text in here {
          var k :| 0 <= k < |here| && here[k] == text;
          assert text == UuidText(Piece(r.data, k));
        }
        if Lists(r, text) {
          var k :| 0 <= k < |r.data| / 2 && text == UuidText(Piece(r.data, k));
          assert here[k] == text;
        }
      }
    }
  }

  /** `find_adv_by_uuid`: data that does not parse does not match; a half UUID raises. */
  function FindAdvByUuid(eir: seq<byte>, uuid: string): Result<bool> {
    match Records(eir)
    case Err(_) => Ok(false)
    case Ok(ad) =>
      var uuids :- AdFindUuid16(ad);
      Ok(uuid in uuids)
  }

  predicate Advertises(rs: seq<Record>, u: seq<byte>) {
    exists r <- rs :: CarriesUuid16(r) && exists k | 0 <= k < |r.data| / 2 :: Piece(r.data, k) == u
  }

  predicate HasHalfUuid(rs: seq<Record>) {
    exists r <- rs :: CarriesUuid16(r) && |r.data| % 2 == 1
  }

  /**
   The scan predicate of the connection procedure, on any well-formed advertising data: it raises exactly if
   a record holds half a UUID, and otherwise matches exactly the UUIDs that some record holds.
   */
  lemma AdvertisedUuidIsFound(rs: seq<Record>, wanted: seq<byte>)
    requires forall r <- rs :: Encodable(r)
    ensures var found := FindAdvByUuid(EncodeAll(rs), UuidText(wanted));
            && (found.Err? <==> HasHalfUuid(rs))
            && (found.Ok? ==> (found.value <==> Advertises(rs, wanted)))
  {
    RecordsOfEncoded(rs);
    FoundUuids(rs, UuidText(wanted));
    forall r <- rs ensures Lists(r, UuidText(wanted)) <==>
        CarriesUuid16(r) && exists k | 0 <= k < |r.data| / 2 :: Piece(r.data, k) == wanted {
      ListsExactly(r, wanted);
    }
  }

  lemma ListsExactly(r: Record, wanted: seq<byte>)
    ensures Lists(r, UuidText(wanted)) <==> CarriesUuid16(r) && exists k | 0 <= k < |r.data| / 2 ::
              Piece(r.data, k) == wanted
  {
    forall k | 0 <= k < |r.data| / 2 ensures UuidText(wanted) == UuidText(Piece(r.data, k)) <==>
        Piece(r.data, k) == wanted {
      if UuidText(wanted) == UuidText(Piece(r.data, k)) {
        UuidTextInjective(wanted, Piece(r.data, k));
      }
    }
  }

  /** The bytes of a structure, and the two types that carry 16-bit UUIDs. */
  lemma StructureBytes(r: Record)
    requires Encodable(r)
    ensures Encode(r)[0] == |r.data| + 1 && Encode(r)[1] == r.adType && Encode(r)[2..] == r.data
    ensures CarriesUuid16(r) <==> r.adType == 2 || r.adType == 3
  {
  }
}
