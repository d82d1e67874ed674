/** The server's view of its table: the two loops that read it back (pybtp/btp.py). */
module ServerFetch {
  import opened Bytes
  import opened Text
  import opened Sorting
  import opened AttrList
  import GattCodec
  import opened GattDb
  import opened Server
  import opened Discovery
  import opened Exactness
  import opened Link
  import Workers

  /** What reading an attribute returns: the ATT response, the length it gives, and the value. */
  datatype AttVal = AttVal(attRsp: int, len: nat, value: seq<byte>)

  type Reader = int -> Option<AttVal>

  // ---- Types as text ----

  /** `type_uuid.replace("0x", "").replace("-", "").upper()`. */
  function Normalised(s: string): string {
    ToUpper(Without(['-'], Without(['0', 'x'], s)))
  }

  function Without(pattern: string, s: string): string {
    if |pattern| == 0 || |s| < |pattern| then s
    else if s[..|pattern|] == pattern then Without(pattern, s[|pattern|..])
    else [s[0]] + Without(pattern, s[1..])
  }

  function ToUpper(s: string): string {
    seq(|s|, i requires 0 <= i < |s| => if 'a' <= s[i] <= 'z' then (s[i] as int - 32) as char else s[i])
  }

  predicate IsUpperHex(s: string) {
    forall c <- s :: '0' <= c <= '9' || 'A' <= c <= 'F'
  }

  lemma {:induction false} HexlifyIsUpperHex(b: seq<byte>)
    ensures IsUpperHex(Hexlify(Upper, b))
  {
    if b != [] {
      HexlifyIsUpperHex(b[1..]);
    }
  }

  lemma {:induction false} WithoutNothing(pattern: string, s: string)
    requires IsUpperHex(s) && !IsUpperHex(pattern)
    ensures Without(pattern, s) == s
  {
    if |pattern| > 0 && |s| >= |pattern| {
      var c :| c in pattern && !('0' <= c <= '9' || 'A' <= c <= 'F');
      assert s[..|pattern|] == pattern ==> c in s;
      assert forall d <- s[1..] :: d in s;
      WithoutNothing(pattern, s[1..]);
      assert s == [s[0]] + s[1..];
    }
  }

  /** The text of a UUID is already in its normal form. */
  lemma UuidTextNormal(u: seq<byte>)
    ensures Normalised(UuidText(u)) == UuidText(u)
  {
    var s := UuidText(u);
    HexlifyIsUpperHex(Reversed(u));
    assert 'x' in ['0', 'x'] && '-' in ['-'];
    WithoutNothing(['0', 'x'], s);
    WithoutNothing(['-'], s);
    assert forall i | 0 <= i < |s| :: s[i] in s;
  }

  lemma DeclarationText(k: byte)
    requires k < 4
    ensures UuidText([k, 0x28]) == ['2', '8', '0', Digit(Upper, k)]
  {
    var r := Reversed([k, 0x28]);
    assert r == [0x28] + [k] && r[1..] == [k] && [k][1..] == [];
    assert Hexlify(Upper, [k]) == ['0', Digit(Upper, k)];
  }

  /** The texts that the loops compare types with name the four kinds of declaration, and nothing else. */
  lemma DeclarationTexts(a: Attr)
    requires a.Value? || a.Desc? ==> !IsDeclarationType(a.uuid)
    ensures var t := UuidText(a.TypeUuid());
            && (t == "2800" <==> a.Primary?) && (t == "2801" <==> a.Secondary?)
            && (t == "2802" <==> a.Included?) && (t == "2803" <==> a.Chrc?)
  {
    DeclarationText(0);
    DeclarationText(1);
    DeclarationText(2);
    DeclarationText(3);
    if a.Value? || a.Desc? {
      forall k: byte | k < 4 ensures UuidText(a.uuid) != UuidText([k, 0x28]) {
        if UuidText(a.uuid) == UuidText([k, 0x28]) {
          UuidTextInjective(a.uuid, [k, 0x28]);
        }
      }
    }
  }

  // ---- The loop with the set of value handles ----

  /** The attribute that a type and a value describe. */
  function Described(a: Attribute, v: AttVal): Result<DbAttr> {
    if a.typeUuid == "2800" || a.typeUuid == "2801" then
      var uuid :- Btp2Uuid(v.len, v.value);
      Ok(if a.typeUuid == "2800" then GattPrimary(a.handle, a.perm, uuid, v.attRsp, None)
         else GattSecondary(a.handle, a.perm, uuid, v.attRsp, None))
    else if a.typeUuid == "2803" then
      if v.len < 3 || |v.value| != v.len then Err(StructError) else
      var uuid :- Btp2Uuid(v.len - 3, v.value[3..]);
      Ok(GattCharacteristic(a.handle, a.perm, uuid, v.attRsp, v.value[0], UnpackU16(v.value[1..3])))
    else if a.typeUuid == "2802" then
      if v.len < 4 || |v.value| != v.len then Err(StructError) else
      var uuid :- if v.len == 4 then Ok(None) else SomeUuid(v.len - 4, v.value[4..]);
      Ok(GattServiceIncluded(a.handle, a.perm, uuid, v.attRsp, UnpackU16(v.value[..2]), UnpackU16(v.value[2..4])))
    else
      Ok(GattCharacteristicDescriptor(a.handle, a.perm, Normalised(a.typeUuid), v.attRsp, Some(v.value)))
  }

  function SomeUuid(len: nat, uu: seq<byte>): Result<Option<string>> {
    var t :- Btp2Uuid(len, uu);
    Ok(Some(t))
  }

  /** The handle that a stored attribute makes the loop pass over later. */
  function ValueHandles(d: DbAttr): set<int> {
    if d.GattCharacteristic? then {d.valueHandle} else {}
  }

  function FetchFrom(attrs: seq<Attribute>, read: Reader, charVals: set<int>, m: Db): Outcome
    decreases |attrs|
  {
    if attrs == [] then Outcome(m, None)
    else
      var a, rest := attrs[0], attrs[1..];
      match read(a.handle)
      case None => FetchFrom(rest, read, charVals, m)
      case Some(v) =>
        if a.handle in charVals then FetchFrom(rest, read, charVals - {a.handle}, m)
        else
          match Described(a, v)
          case Err(e) => Outcome(m, Some(e))
          case Ok(d) => FetchFrom(rest, read, charVals + ValueHandles(d), m[a.handle as int := d])
  }

  /** `gatt_server_fetch_db`, after the attribute list was received. */
  method GattServerFetchDb(attrs: seq<Attribute>, read: Reader, db: GattDB) returns (err: Option<Error>)
    modifies db
    ensures Outcome(db.db, err) == FetchFrom(attrs, read, {}, old(db.db))
  {
    var charValSet: set<int> := {};
    ghost var all := FetchFrom(attrs, read, {}, db.db);
    var i := 0;
    assert attrs[0..] == attrs;
    while i < |attrs|
      invariant i <= |attrs| && all == FetchFrom(attrs[i..], read, charValSet, db.db)
    {
      var attr := attrs[i];
      assert attrs[i..][0] == attr && attrs[i..][1..] == attrs[i + 1..];
      i := i + 1;
      var attrVal := read(attr.handle);
      if attrVal.None? {
        continue;
      }
      if attr.handle in charValSet {
        charValSet := charValSet - {attr.handle};
        continue;
      }
      var d := Described(attr, attrVal.value);
      if d.Err? {
        return Some(d.error);
      }
      charValSet := charValSet + ValueHandles(d.value);
      db.AttrAdd(attr.handle, d.value);
    }
    return None;
  }

  // ---- The loop with the previous declaration ----

  datatype Parsed =
    | ParsedService(hdl: int, endHdl: int, uuid: string)
    | ParsedInclude(hdl: int, inclHdl: int, inclEnd: int, inclUuid: Option<string>)
    | ParsedCharacteristic(hdl: int, valHdl: int, props: int, uuid: string)
    | ParsedDescriptor(hdl: int, uuid: string)

  datatype ParseOutcome = ParseOutcome(database: map<int, Parsed>, err: Option<Error>)

  /** `gatts_parse_attribute`. */
  function GattsParseAttribute(a: Attribute, v: AttVal): Result<Parsed> {
    var n := |v.value|;
    if a.typeUuid == "2800" || a.typeUuid == "2801" then
      var uuid :- Btp2Uuid(n, v.value);
      Ok(ParsedService(a.handle, MAX_HANDLE, uuid))
    else if a.typeUuid == "2802" then
      if n < 4 then Err(StructError) else
      var uuid :- if n == 4 then Ok(None) else SomeUuid(n - 4, v.value[4..]);
      Ok(ParsedInclude(a.handle, UnpackU16(v.value[..2]), UnpackU16(v.value[2..4]), uuid))
    else if a.typeUuid == "2803" then
      if n < 3 then Err(StructError) else
      var uuid :- Btp2Uuid(n - 3, v.value[3..]);
      Ok(ParsedCharacteristic(a.handle, UnpackU16(v.value[1..3]), v.value[0], uuid))
    else
      Ok(ParsedDescriptor(a.handle, a.typeUuid))
  }

  /** chrDef is the UUID of the declaration just before, if it declared a characteristic. */
  function ParseFrom(attrs: seq<Attribute>, read: int -> AttVal, chrDef: Option<string>,
                     m: map<int, Parsed>): ParseOutcome
    decreases |attrs|
  {
    if attrs == [] then ParseOutcome(m, None)
    else
      var a, rest := attrs[0], attrs[1..];
      if chrDef == Some(a.typeUuid) then ParseFrom(rest, read, None, m)
      else
        match GattsParseAttribute(a, read(a.handle))
        case Err(e) => ParseOutcome(m, Some(e))
        case Ok(p) =>
          ParseFrom(rest, read, if p.ParsedCharacteristic? then Some(p.uuid) else None, m[a.handle as int := p])
  }

  /** `gatts_get_attribute_values`. */
  method GattsGetAttributeValues(attributes: seq<Attribute>, read: int -> AttVal) returns (r: ParseOutcome)
    ensures r == ParseFrom(attributes, read, None, map[])
  {
    var database: map<int, Parsed> := map[];
    var storeChrDef: Option<string> := None;
    var i := 0;
    assert attributes[0..] == attributes;
    while i < |attributes|
      invariant i <= |attributes|
      invariant ParseFrom(attributes, read, None, map[]) == ParseFrom(attributes[i..], read, storeChrDef, database)
    {
      var attr := attributes[i];
      assert attributes[i..][0] == attr && attributes[i..][1..] == attributes[i + 1..];
      i := i + 1;
      var rsp := read(attr.handle);
      var chrUuid := storeChrDef;
      storeChrDef := None;
      if chrUuid == Some(attr.typeUuid) {
        continue;
      }
      var attribute := GattsParseAttribute(attr, rsp);
      if attribute.Err? {
        return ParseOutcome(database, Some(attribute.error));
      }
      if attribute.value.ParsedCharacteristic? {
        storeChrDef := Some(attribute.value.uuid);
      }
      database := database[attr.handle as int := attribute.value];
    }
    return ParseOutcome(database, None);
  }

  // ---- Both loops on a server's own table ----

  /** The value that the server holds for an attribute; a 128-bit included service is without its UUID. */
  function ValueOf(a: Attr): seq<byte> {
    match a
    case Primary(u, _) => u
    case Secondary(u, _) => u
    case Included(u, s, e) => PackU16(s) + PackU16(e) + (if |u| == 2 then u else [])
    case Chrc(u, props, vh) => [props] + PackU16(vh) + u
    case Value(_, v) => v
    case Desc(_, v) => v
  }

  function ReadTable(T: Table, h: int): AttVal {
    if h in T then AttVal(0, |ValueOf(T[h])|, ValueOf(T[h])) else AttVal(1, 0, [])
  }

  function TableReader(T: Table): Reader {
    h => Some(ReadTable(T, h))
  }

  function TableValues(T: Table): int -> AttVal {
    h => ReadTable(T, h)
  }

  /** The attribute list that the device reports. */
  function AttrsOf(T: Table, perms: int -> byte, ks: seq<int>): seq<Attribute>
    requires forall i | 0 <= i < |ks| :: ks[i] in T
  {
    if ks == [] then []
    else [Attribute(ks[0], perms(ks[0]), UuidText(T[ks[0]].TypeUuid()))] + AttrsOf(T, perms, ks[1..])
  }

  function InclUuid(u: seq<byte>): Option<string> {
    if |u| == 2 then Some(UuidText(u)) else None
  }

  /** The server's record of the attribute at h. */
  function ServerView(T: Table, perms: int -> byte, h: int): DbAttr
    requires h in T
  {
    var perm, text := perms(h), UuidText(T[h].uuid);
    match T[h]
    case Primary(_, _) => GattPrimary(h, perm, text, 0, None)
    case Secondary(_, _) => GattSecondary(h, perm, text, 0, None)
    case Included(u, s, e) => GattServiceIncluded(h, perm, InclUuid(u), 0, s, e)
    case Chrc(_, props, vh) => GattCharacteristic(h, perm, text, 0, props, vh)
    case Value(_, v) => GattCharacteristicDescriptor(h, perm, text, 0, Some(v))
    case Desc(_, v) => GattCharacteristicDescriptor(h, perm, text, 0, Some(v))
  }

  function ParsedView(T: Table, h: int): Parsed
    requires h in T
  {
    var text := UuidText(T[h].uuid);
    match T[h]
    case Primary(_, _) => ParsedService(h, MAX_HANDLE, text)
    case Secondary(_, _) => ParsedService(h, MAX_HANDLE, text)
    case Included(u, s, e) => ParsedInclude(h, s, e, InclUuid(u))
    case Chrc(_, props, vh) => ParsedCharacteristic(h, vh, props, text)
    case Value(_, _) => ParsedDescriptor(h, text)
    case Desc(_, _) => ParsedDescriptor(h, text)
  }

  /** Neither record is of the wrong kind or UUID: reading an attribute and interpreting it restores it. */
  lemma Interpreted(T: Table, perms: int -> byte, h: int)
    requires WellFormed(T) && h in T
    ensures var a := Attribute(h, perms(h), UuidText(T[h].TypeUuid()));
            && Described(a, ReadTable(T, h)) == Ok(ServerView(T, perms, h))
            && GattsParseAttribute(a, ReadTable(T, h)) == Ok(ParsedView(T, h))
  {
    assert PlacedRight(T, h);
    DeclarationTexts(T[h]);
    Btp2UuidIsHex(T[h].uuid);
    UuidTextNormal(T[h].TypeUuid());
    var v := ValueOf(T[h]);
    match T[h] {
      case Included(u, s, e) =>
        PackUnpackU16(s);
        PackUnpackU16(e);
        assert v[..2] == PackU16(s) && v[2..4] == PackU16(e) && v[4..] == if |u| == 2 then u else [];
      case Chrc(u, props, vh) =>
        PackUnpackU16(vh);
        assert v[1..3] == PackU16(vh) && v[3..] == u;
      case _ =>
    }
  }

  /** ks lists the handles of the table from some point on. */
  ghost predicate Remaining(T: Table, ks: seq<int>) {
    && Ascending(ks)
    && (forall i | 0 <= i < |ks| :: ks[i] in T)
    && (forall h <- T, i | 0 <= i < |ks| && h > ks[i] :: h in ks)
  }

  lemma SecondIsLeast(ks: seq<int>, j: nat)
    requires Ascending(ks) && 1 <= j < |ks|
    ensures ks[0] < ks[1] <= ks[j]
  {
  }

  lemma NothingBetween(ks: seq<int>, p: int)
    requires Ascending(ks) && |ks| > 1
    ensures p in ks ==> p <= ks[0] || ks[1] <= p
  {
  }

  /** Behind the declaration of a characteristic comes its value; a value comes nowhere else. */
  lemma NextHandle(T: Table, ks: seq<int>)
    requires WellFormed(T) && Remaining(T, ks) && ks != []
    ensures Remaining(T, ks[1..])
    ensures T[ks[0]].Chrc? ==> |ks| > 1 && ks[1] == ks[0] + 1 && T[ks[1]].Value?
    ensures |ks| > 1 && T[ks[1]].Value? ==> T[ks[0]].Chrc?
  {
    var rest := ks[1..];
    forall h <- T, i | 0 <= i < |rest| && h > rest[i] ensures h in rest {
      assert rest[i] == ks[i + 1] && h in ks && h != ks[0];
    }
    assert PlacedRight(T, ks[0]);
    if T[ks[0]].Chrc? {
      assert ks[0] + 1 in ks;
      var j :| 0 <= j < |ks| && ks[j] == ks[0] + 1;
      SecondIsLeast(ks, j);
    }
    if |ks| > 1 && T[ks[1]].Value? {
      assert PlacedRight(T, ks[1]);
      NothingBetween(ks, ks[1] - 1);
    }
  }

  /** The value handle that the declaration just passed has announced, if one is next. */
  function Announced(T: Table, ks: seq<int>): set<int>
    requires forall i | 0 <= i < |ks| :: ks[i] in T
  {
    if ks != [] && T[ks[0]].Value? then {ks[0]} else {}
  }

  function ServerViews(T: Table, perms: int -> byte, ks: seq<int>): Db {
    map h | h in ks && h in T && !T[h].Value? :: ServerView(T, perms, h)
  }

  lemma ServerViewsStep(T: Table, perms: int -> byte, ks: seq<int>, m: Db)
    requires ks != [] && ks[0] in T
    ensures var h, rest := ks[0], ServerViews(T, perms, ks[1..]);
            m + ServerViews(T, perms, ks) ==
            (if T[h].Value? then m else m[h := ServerView(T, perms, h)]) + rest
  {
    var h, rest, all := ks[0], ServerViews(T, perms, ks[1..]), ServerViews(T, perms, ks);
    assert forall k :: k in ks <==> k == h || k in ks[1..];
    if T[h].Value? {
      assert rest == all;
    } else {
      AddOneThenRest(m, h, ServerView(T, perms, h), rest, all);
    }
  }

  /** One round of the loop with the set. */
  lemma FetchRound(T: Table, perms: int -> byte, ks: seq<int>, m: Db)
    requires WellFormed(T) && Remaining(T, ks) && ks != [] && Remaining(T, ks[1..])
    ensures FetchFrom(AttrsOf(T, perms, ks), TableReader(T), Announced(T, ks), m) ==
            var m' := if T[ks[0]].Value? then m else m[ks[0] := ServerView(T, perms, ks[0])];
            FetchFrom(AttrsOf(T, perms, ks[1..]), TableReader(T), Announced(T, ks[1..]), m')
  {
    var h, attrs := ks[0], AttrsOf(T, perms, ks);
    assert attrs[0].handle == h && attrs[1..] == AttrsOf(T, perms, ks[1..]);
    AnnouncedNext(T, perms, ks);
    if !T[h].Value? {
      Interpreted(T, perms, h);
    }
  }

  lemma AnnouncedNext(T: Table, perms: int -> byte, ks: seq<int>)
    requires WellFormed(T) && Remaining(T, ks) && ks != [] && Remaining(T, ks[1..])
    ensures Announced(T, ks[1..]) ==
            if T[ks[0]].Value? then Announced(T, ks) - {ks[0]}
            else Announced(T, ks) + ValueHandles(ServerView(T, perms, ks[0]))
  {
    NextHandle(T, ks);
    assert PlacedRight(T, ks[0]);
  }

  lemma {:induction false} FetchFromTable(T: Table, perms: int -> byte, ks: seq<int>, m: Db)
    requires WellFormed(T) && Remaining(T, ks)
    ensures FetchFrom(AttrsOf(T, perms, ks), TableReader(T), Announced(T, ks), m) ==
            Outcome(m + ServerViews(T, perms, ks), None)
    decreases |ks|
  {
    if ks == [] {
      assert m + ServerViews(T, perms, ks) == m;
    } else {
      NextHandle(T, ks);
      ServerViewsStep(T, perms, ks, m);
      FetchRound(T, perms, ks, m);
      FetchFromTable(T, perms, ks[1..], if T[ks[0]].Value? then m else m[ks[0] := ServerView(T, perms, ks[0])]);
    }
  }

  /** The UUID of the characteristic whose value is next. */
  function Declared(T: Table, ks: seq<int>): Option<string>
    requires forall i | 0 <= i < |ks| :: ks[i] in T
  {
    if ks != [] && T[ks[0]].Value? then Some(UuidText(T[ks[0]].uuid)) else None
  }

  function ParsedViews(T: Table, ks: seq<int>): map<int, Parsed> {
    map h | h in ks && h in T && !T[h].Value? :: ParsedView(T, h)
  }

  /** One round of the loop with the previous declaration. */
  lemma ParseRound(T: Table, perms: int -> byte, ks: seq<int>, m: map<int, Parsed>)
    requires WellFormed(T) && Remaining(T, ks) && ks != [] && Remaining(T, ks[1..])
    ensures ParseFrom(AttrsOf(T, perms, ks), TableValues(T), Declared(T, ks), m) ==
            var m' := if T[ks[0]].Value? then m else m[ks[0] := ParsedView(T, ks[0])];
            ParseFrom(AttrsOf(T, perms, ks[1..]), TableValues(T), Declared(T, ks[1..]), m')
  {
    var h := ks[0];
    NextHandle(T, ks);
    Interpreted(T, perms, h);
    var attrs := AttrsOf(T, perms, ks);
    assert attrs[0].handle == h && attrs[1..] == AttrsOf(T, perms, ks[1..]);
    if T[h].Value? {
      assert Declared(T, ks[1..]) == None;
    } else {
      var p := ParsedView(T, h);
      assert Declared(T, ks[1..]) == if p.ParsedCharacteristic? then Some(p.uuid) else None by {
        assert PlacedRight(T, h);
      }
    }
  }

  lemma {:induction false} ParseFromTable(T: Table, perms: int -> byte, ks: seq<int>, m: map<int, Parsed>)
    requires WellFormed(T) && Remaining(T, ks)
    ensures ParseFrom(AttrsOf(T, perms, ks), TableValues(T), Declared(T, ks), m) ==
            ParseOutcome(m + ParsedViews(T, ks), None)
    decreases |ks|
  {
    if ks == [] {
      assert m + ParsedViews(T, ks) == m;
    } else {
      NextHandle(T, ks);
      ParsedViewsStep(T, ks, m);
      ParseRound(T, perms, ks, m);
      ParseFromTable(T, perms, ks[1..], if T[ks[0]].Value? then m else m[ks[0] := ParsedView(T, ks[0])]);
    }
  }

  lemma AddParsed(m: map<int, Parsed>, h: int, p: Parsed, rest: map<int, Parsed>, all: map<int, Parsed>)
    requires forall k :: k in all <==> k == h || k in rest
    requires all[h] == p && forall k <- rest :: all[k] == rest[k]
    ensures m + all == m[h := p] + rest
  {
    var left, right := m + all, m[h := p] + rest;
    forall k ensures k in left <==> k in right {
      assert k in all <==> k == h || k in rest;
    }
    assert left.Keys == right.Keys;
    forall k <- left ensures left[k] == right[k] {
    }
  }

  lemma ParsedViewsStep(T: Table, ks: seq<int>, m: map<int, Parsed>)
    requires ks != [] && ks[0] in T
    ensures var h, rest := ks[0], ParsedViews(T, ks[1..]);
            m + ParsedViews(T, ks) == (if T[h].Value? then m else m[h := ParsedView(T, h)]) + rest
  {
    var h, rest := ks[0], ParsedViews(T, ks[1..]);
    assert forall k :: k in ks <==> k == h || k in ks[1..];
    if T[h].Value? {
      assert rest == ParsedViews(T, ks);
    } else {
      AddParsed(m, h, ParsedView(T, h), rest, ParsedViews(T, ks));
    }
  }

  // ---- Whole tables ----

  /** The database that the server-side loop builds from its own table. */
  function FetchedDb(T: Table, perms: int -> byte): Db {
    map h | h in T && !T[h].Value? :: ServerView(T, perms, h)
  }

  lemma TableStart(T: Table)
    requires WellFormed(T)
    ensures var ks := Sorted(T.Keys); Remaining(T, ks) && (ks != [] ==> !T[ks[0]].Value?)
  {
    var ks := Sorted(T.Keys);
    FirstIsLeast(T.Keys);
    if ks != [] {
      assert PlacedRight(T, ks[0]);
    }
  }

  lemma SetLoopExact(T: Table, perms: int -> byte)
    requires WellFormed(T)
    ensures FetchFrom(AttrsOf(T, perms, Sorted(T.Keys)), TableReader(T), {}, map[]) ==
            Outcome(FetchedDb(T, perms), None)
  {
    var ks := Sorted(T.Keys);
    TableStart(T);
    FetchFromTable(T, perms, ks, map[]);
    ServerViewsAll(T, perms);
  }

  lemma ServerViewsAll(T: Table, perms: int -> byte)
    ensures map[] + ServerViews(T, perms, Sorted(T.Keys)) == FetchedDb(T, perms)
  {
  }

  lemma ParsedViewsAll(T: Table)
    ensures map[] + ParsedViews(T, Sorted(T.Keys)) == ParsedTable(T)
  {
  }

  /** What the other loop keeps of the table. */
  function ParsedTable(T: Table): map<int, Parsed> {
    map h | h in T && !T[h].Value? :: ParsedView(T, h)
  }

  lemma DeclarationLoopExact(T: Table, perms: int -> byte)
    requires WellFormed(T)
    ensures ParseFrom(AttrsOf(T, perms, Sorted(T.Keys)), TableValues(T), None, map[]) ==
            ParseOutcome(ParsedTable(T), None)
  {
    var ks := Sorted(T.Keys);
    TableStart(T);
    ParseFromTable(T, perms, ks, map[]);
    ParsedViewsAll(T);
  }

  /**
   The loop with the set of value handles records every attribute but the characteristic values, as
   what its declaration says it is, and so does the loop with the previous declaration: both keep the
   same handles.
   */
  lemma BothLoopsKeepTheSame(T: Table, perms: int -> byte)
    requires WellFormed(T)
    ensures var attrs := AttrsOf(T, perms, Sorted(T.Keys));
            FetchFrom(attrs, TableReader(T), {}, map[]).db.Keys ==
            ParseFrom(attrs, TableValues(T), None, map[]).database.Keys
  {
    SetLoopExact(T, perms);
    DeclarationLoopExact(T, perms);
    assert FetchedDb(T, perms).Keys == ParsedTable(T).Keys;
  }

  // ---- The client's view and the server's ----

  predicate NoSecondary(m: Db) {
    forall h <- m :: !m[h].GattSecondary?
  }

  lemma {:induction false} StoredNoSecondary(m: Db, es: seq<GattCodec.RawEntry>)
    requires NoSecondary(m)
    ensures NoSecondary(StoreAll(m, es).db)
    decreases |es|
  {
    if es != [] {
      match StoredAs(es[0])
      case Err(_) =>
      case Ok(a) => StoredNoSecondary(m[a.handle := a], es[1..]);
    }
  }

  lemma FetchNoSecondary(T: Table, q: Query, m: Db)
    requires NoSecondary(m)
    ensures NoSecondary(Fetch(T, q, m).db)
  {
    match Ask(T, q)
    case Err(_) =>
    case Ok(data) =>
      match GattCodec.DecDiscRsp(q.KindOf(), data)
      case Err(_) =>
      case Ok(es) => StoredNoSecondary(m, es);
  }

  ghost predicate KeepsNoSecondary(step: Step) {
    forall a, n :: NoSecondary(n) ==> NoSecondary(step(a, n).db)
  }

  lemma {:induction false} ForEachNoSecondary(step: Step, items: seq<DbAttr>, m: Db)
    requires NoSecondary(m)
    requires KeepsNoSecondary(step)
    ensures NoSecondary(ForEach(step, items, m).db)
    decreases |items|
  {
    if items != [] {
      assert NoSecondary(step(items[0], m).db);
      ForEachNoSecondary(step, items[1..], step(items[0], m).db);
    }
  }

  lemma ServiceStepNoSecondary(T: Table, svc: DbAttr, m: Db)
    requires NoSecondary(m)
    ensures NoSecondary(DiscoverService(T, svc, m).db)
  {
    if HasEnd(svc) {
      var q := FindIncluded(svc.handle, EndOf(svc));
      FetchNoSecondary(T, q, m);
      FetchNoSecondary(T, AllChrc(svc.handle, EndOf(svc)), Fetch(T, q, m).db);
    }
  }

  lemma DescriptorStepNoSecondary(T: Table, c: DbAttr, m: Db, skipEmpty: bool)
    requires NoSecondary(m)
    ensures NoSecondary(DiscoverDescriptorsOf(T, c, m, skipEmpty).db)
  {
    match CharacteristicEnd(m, c.handle)
    case Ok(Some(end)) =>
      if c.GattCharacteristic? {
        FetchNoSecondary(T, AllDesc(c.valueHandle + 1, end), m);
      }
    case _ =>
  }

  lemma StepsKeepNoSecondary(T: Table, skipEmpty: bool)
    ensures KeepsNoSecondary(ServiceStep(T)) && KeepsNoSecondary(DescriptorStep(T, skipEmpty))
  {
    forall a, n | NoSecondary(n) ensures NoSecondary(ServiceStep(T)(a, n).db) {
      ServiceStepNoSecondary(T, a, n);
    }
    forall a, n | NoSecondary(n) ensures NoSecondary(DescriptorStep(T, skipEmpty)(a, n).db) {
      DescriptorStepNoSecondary(T, a, n, skipEmpty);
    }
  }

  /** Discovery never records a secondary service, whatever the table. */
  lemma DiscoveredNoSecondary(T: Table, skipEmpty: bool)
    ensures NoSecondary(DiscoverFull(T, map[], skipEmpty).db)
  {
    StepsKeepNoSecondary(T, skipEmpty);
    FetchNoSecondary(T, AllPrimary, map[]);
    var o1 := Fetch(T, AllPrimary, map[]);
    LoopsNoSecondary(T, o1, skipEmpty);
    DiscoverFullStages(T, map[], skipEmpty);
  }

  lemma DiscoverFullStages(T: Table, m: Db, skipEmpty: bool)
    ensures var o1 := Fetch(T, AllPrimary, m);
            var o2 := ForEach(ServiceStep(T), Services(o1.db), o1.db);
            var o3 := ForEach(DescriptorStep(T, skipEmpty), Characteristics(o2.db), o2.db);
            DiscoverFull(T, m, skipEmpty) in {o1, o2, o3}
  {
  }

  lemma LoopsNoSecondary(T: Table, o1: Outcome, skipEmpty: bool)
    requires NoSecondary(o1.db) && KeepsNoSecondary(ServiceStep(T)) && KeepsNoSecondary(DescriptorStep(T, skipEmpty))
    ensures var o2 := ForEach(ServiceStep(T), Services(o1.db), o1.db);
            && NoSecondary(o2.db)
            && NoSecondary(ForEach(DescriptorStep(T, skipEmpty), Characteristics(o2.db), o2.db).db)
  {
    ForEachNoSecondary(ServiceStep(T), Services(o1.db), o1.db);
    var m2 := ForEach(ServiceStep(T), Services(o1.db), o1.db).db;
    ForEachNoSecondary(DescriptorStep(T, skipEmpty), Characteristics(m2), m2);
  }

  lemma ExpectedIsFetched(T: Table, perms: int -> byte)
    requires OnlyPrimary(T)
    ensures SameDb(Expected(T), FetchedDb(T, perms))
  {
  }

  lemma SecondaryTellsApart(T: Table, perms: int -> byte, m: Db)
    requires NoSecondary(m) && !OnlyPrimary(T)
    ensures !SameDb(m, FetchedDb(T, perms))
  {
    var h :| h in T && T[h].Secondary?;
    assert h in FetchedDb(T, perms) && FetchedDb(T, perms)[h].GattSecondary?;
  }

  /**
   The client's database equals the server's in the code's own sense, which ignores permissions, values
   and the ends of groups, if and only if the table has no secondary service.
   */
  lemma ViewsAgree(T: Table, perms: int -> byte)
    requires WellFormed(T) && Roomy(T)
    ensures SameDb(DiscoverFull(T, map[], true).db, FetchedDb(T, perms)) <==> OnlyPrimary(T)
  {
    if OnlyPrimary(T) {
      DiscoveryIsExact(T);
      ExpectedIsFetched(T, perms);
    } else {
      DiscoveredNoSecondary(T, true);
      SecondaryTellsApart(T, perms, DiscoverFull(T, map[], true).db);
    }
  }

  /** Discovery from an empty database is exact if and only if the table has no secondary service. */
  lemma ExactOnPrimary(T: Table)
    requires WellFormed(T) && Roomy(T)
    ensures DiscoverFull(T, map[], true).db == Expected(T) <==> OnlyPrimary(T)
  {
    if OnlyPrimary(T) {
      DiscoveryIsExact(T);
    } else {
      DiscoveredNoSecondary(T, true);
      var h :| h in T && T[h].Secondary?;
      assert Expected(T)[h].GattSecondary?;
    }
  }

  /** In particular the server's database contains the client's. */
  lemma ServerContainsClient(T: Table, perms: int -> byte)
    requires WellFormed(T) && Roomy(T) && OnlyPrimary(T)
    ensures ContainsAll(FetchedDb(T, perms), DiscoverFull(T, map[], true).db)
  {
    ViewsAgree(T, perms);
    ContainmentIsPartialOrder(DiscoverFull(T, map[], true).db, FetchedDb(T, perms), map[]);
  }

  // ---- What the two sides hold, and what their comparison tells apart ----

  /** Every attribute that the client discovers, field by field. */
  lemma DiscoveredFields(T: Table, h: int)
    requires WellFormed(T) && OnlyPrimary(T) && Roomy(T)
    ensures var m := DiscoverFull(T, map[], true).db;
            && (h in m <==> h in T && !T[h].Value?)
            && (h in m ==> m[h].handle == h && match T[h]
                case Primary(u, e) => m[h].GattPrimary? && m[h].uuid == UuidText(u) && m[h].endHdl == Some(e as int)
                case Secondary(_, _) => false
                case Included(u, s, e) =>
                  && m[h].GattServiceIncluded? && m[h].inclUuid == Some(UuidText(u))
                  && m[h].inclSvcHdl == s as int && m[h].endGrpHdl == e as int
                case Chrc(u, props, vh) =>
                  && m[h].GattCharacteristic? && m[h].uuid == UuidText(u)
                  && m[h].prop == props as int && m[h].valueHandle == vh as int
                case Value(_, _) => false
                case Desc(u, _) => m[h].GattCharacteristicDescriptor? && m[h].uuid == UuidText(u))
  {
    DiscoveryIsExact(T);
  }

  /** Every attribute that the server side records, field by field. */
  lemma FetchedFields(T: Table, perms: int -> byte, h: int)
    requires WellFormed(T)
    ensures var m := FetchFrom(AttrsOf(T, perms, Sorted(T.Keys)), TableReader(T), {}, map[]).db;
            && (h in m <==> h in T && !T[h].Value?)
            && (h in m ==> m[h].handle == h && m[h].perm == perms(h) as int && match T[h]
                case Primary(u, _) => m[h].GattPrimary? && m[h].uuid == UuidText(u)
                case Secondary(u, _) => m[h].GattSecondary? && m[h].uuid == UuidText(u)
                case Included(u, s, e) =>
                  && m[h].GattServiceIncluded? && m[h].inclSvcHdl == s as int && m[h].endGrpHdl == e as int
                  && m[h].inclUuid == if |u| == 2 then Some(UuidText(u)) else None
                case Chrc(u, props, vh) =>
                  && m[h].GattCharacteristic? && m[h].uuid == UuidText(u)
                  && m[h].prop == props as int && m[h].valueHandle == vh as int
                case Value(_, _) => false
                case Desc(u, v) =>
                  m[h].GattCharacteristicDescriptor? && m[h].uuid == UuidText(u) && m[h].value == Some(v))
  {
    SetLoopExact(T, perms);
  }

  /** And what the other loop keeps. */
  lemma ParsedFields(T: Table, perms: int -> byte, h: int)
    requires WellFormed(T)
    ensures var m := ParseFrom(AttrsOf(T, perms, Sorted(T.Keys)), TableValues(T), None, map[]).database;
            && (h in m <==> h in T && !T[h].Value?)
            && (h in m ==> match T[h]
                case Primary(u, _) => m[h] == ParsedService(h, 0xffff, UuidText(u))
                case Secondary(u, _) => m[h] == ParsedService(h, 0xffff, UuidText(u))
                case Included(u, s, e) =>
                  m[h] == ParsedInclude(h, s as int, e as int, if |u| == 2 then Some(UuidText(u)) else None)
                case Chrc(u, props, vh) => m[h] == ParsedCharacteristic(h, vh as int, props as int, UuidText(u))
                case Value(_, _) => false
                case Desc(u, _) => m[h] == ParsedDescriptor(h, UuidText(u)))
  {
    DeclarationLoopExact(T, perms);
  }

  /** A handle that cannot be read is not recorded, and does not end the loop. */
  lemma {:induction false} UnreadableIsLeftOut(attrs: seq<Attribute>, read: Reader, charVals: set<int>, m: Db, h: int)
    requires read(h).None? && h !in m
    ensures h !in FetchFrom(attrs, read, charVals, m).db
    decreases |attrs|
  {
    if attrs != [] {
      var a, rest := attrs[0], attrs[1..];
      match read(a.handle)
      case None => UnreadableIsLeftOut(rest, read, charVals, m, h);
      case Some(v) =>
        if a.handle in charVals {
          UnreadableIsLeftOut(rest, read, charVals - {a.handle}, m, h);
        } else if Described(a, v).Ok? {
          var d := Described(a, v).value;
          UnreadableIsLeftOut(rest, read, charVals + ValueHandles(d), m[a.handle as int := d], h);
        }
    }
  }

  /** What a record keeps of the attribute and of its reading, and exactly which readings can be recorded. */
  lemma DescribedExactly(a: Attribute, v: AttVal)
    ensures Described(a, v).Ok? ==>
              var d := Described(a, v).value;
              d.handle == a.handle as int && d.perm == a.perm as int && d.attRsp == v.attRsp
    ensures Described(a, v).Ok? <==>
            && (a.typeUuid in {"2800", "2801"} ==> |v.value| == if v.len == 2 then 2 else 16)
            && (a.typeUuid == "2803" ==> v.len in {5, 19} && |v.value| == v.len)
            && (a.typeUuid == "2802" ==> v.len in {4, 6, 20} && |v.value| == v.len)
  {
  }

  /** The handle of a value is passed over once. */
  lemma PassedOverOnce(a: Attribute, v: AttVal, read: Reader, m: Db)
    requires read(a.handle) == Some(v) && Described(a, v).Ok?
    ensures FetchFrom([a], read, {a.handle}, m).db == m
    ensures FetchFrom([a, a], read, {a.handle}, m).db == m[a.handle as int := Described(a, v).value]
  {
    var once: set<int> := {a.handle};
    var none: set<int> := {};
    assert once - {a.handle as int} == none;
    assert [a, a][1..] == [a] && [a][1..] == [];
    assert FetchFrom([a], read, none, m).db == m[a.handle as int := Described(a, v).value];
  }

  function Readable(attrs: seq<Attribute>, read: Reader): seq<Attribute> {
    if attrs == [] then []
    else (if read(attrs[0].handle).Some? then [attrs[0]] else []) + Readable(attrs[1..], read)
  }

  /** The loop goes on as if the attributes that cannot be read were not in the list. */
  lemma {:induction false} UnreadableIsPassedOver(attrs: seq<Attribute>, read: Reader, charVals: set<int>, m: Db)
    ensures FetchFrom(attrs, read, charVals, m) == FetchFrom(Readable(attrs, read), read, charVals, m)
    decreases |attrs|
  {
    if attrs != [] {
      var a, rest := attrs[0], attrs[1..];
      match read(a.handle)
      case None =>
        assert Readable(attrs, read) == Readable(rest, read);
        UnreadableIsPassedOver(rest, read, charVals, m);
      case Some(v) =>
        var more := Readable(rest, read);
        assert ([a] + more)[0] == a && ([a] + more)[1..] == more;
        if a.handle in charVals {
          UnreadableIsPassedOver(rest, read, charVals - {a.handle}, m);
        } else if Described(a, v).Ok? {
          var d := Described(a, v).value;
          UnreadableIsPassedOver(rest, read, charVals + ValueHandles(d), m[a.handle as int := d]);
        }
    }
  }

  predicate SameRecord(a: Attr, b: Attr) {
    match (a, b)
    case (Primary(u, _), Primary(v, _)) => u == v
    case (Secondary(u, _), Secondary(v, _)) => u == v
    case (Included(_, s, e), Included(_, s', e')) => s == s' && e == e'
    case (Chrc(u, _, _), Chrc(v, _, _)) => u == v
    case _ => (a.Value? || a.Desc?) && (b.Value? || b.Desc?) && a.uuid == b.uuid
  }

  /** The code's equality of two attributes of two tables: constructor and UUID, or the two handles of an include. */
  lemma EqTellsApart(T: Table, U: Table, perms: int -> byte, h: int)
    requires h in T && h in U
    ensures ServerView(U, perms, h).Eq(ClientView(T, h)) <==> SameRecord(T[h], U[h])
  {
    if UuidText(T[h].uuid) == UuidText(U[h].uuid) {
      UuidTextInjective(T[h].uuid, U[h].uuid);
    }
  }

  lemma ContainedByRecords(T: Table, U: Table, perms: int -> byte)
    ensures ContainsAll(FetchedDb(U, perms), Expected(T)) <==>
            forall h <- T | !T[h].Value? :: h in U && !U[h].Value? && SameRecord(T[h], U[h])
  {
    var m, n := Expected(T), FetchedDb(U, perms);
    forall h | h in m && h in n ensures n[h].Eq(m[h]) <==> SameRecord(T[h], U[h]) {
      EqTellsApart(T, U, perms, h);
    }
    assert forall h :: h in m <==> h in T && !T[h].Value?;
    assert forall h :: h in n <==> h in U && !U[h].Value?;
  }

  /** What the comparison of records means for the attributes of the two tables. */
  lemma RecordsOfTables(a: Attr, b: Attr)
    requires !a.Secondary? && !a.Value?
    ensures !b.Value? && SameRecord(a, b) <==>
            match (a, b)
            case (Primary(u, _), Primary(v, _)) => u == v
            case (Included(_, s, e), Included(_, s', e')) => s == s' && e == e'
            case (Chrc(u, _, _), Chrc(v, _, _)) => u == v
            case (Desc(u, _), Desc(v, _)) => u == v
            case _ => false
  {
  }

  /**
   For two tables, one discovered and one fetched: the fetched database contains the discovered one exactly if
   every attribute of the first, but for values, is in the second under its handle, with the same declaration:
   the same constructor and UUID, or for an include the same two handles.
   */
  lemma ContainedExactly(T: Table, U: Table, perms: int -> byte)
    requires WellFormed(T) && OnlyPrimary(T) && Roomy(T)
    ensures ContainsAll(FetchedDb(U, perms), DiscoverFull(T, map[], true).db) <==>
            forall h <- T | !T[h].Value? ::
              && h in U
              && match (T[h], U[h])
                 case (Primary(u, _), Primary(v, _)) => u == v
                 case (Included(_, s, e), Included(_, s', e')) => s == s' && e == e'
                 case (Chrc(u, _, _), Chrc(v, _, _)) => u == v
                 case (Desc(u, _), Desc(v, _)) => u == v
                 case _ => false
  {
    DiscoveryIsExact(T);
    ContainedByRecords(T, U, perms);
    forall h | h in T && !T[h].Value? && h in U
      ensures !U[h].Value? && SameRecord(T[h], U[h]) <==>
              match (T[h], U[h])
              case (Primary(u, _), Primary(v, _)) => u == v
              case (Included(_, s, e), Included(_, s', e')) => s == s' && e == e'
              case (Chrc(u, _, _), Chrc(v, _, _)) => u == v
              case (Desc(u, _), Desc(v, _)) => u == v
              case _ => false
    {
      RecordsOfTables(T[h], U[h]);
    }
  }

  /**
   The two databases are equal exactly if both tables have the same handles, but for values, and at each the
   same declaration.
   */
  lemma ViewsTellApart(T: Table, U: Table, perms: int -> byte)
    requires WellFormed(T) && OnlyPrimary(T) && Roomy(T)
    ensures SameDb(DiscoverFull(T, map[], true).db, FetchedDb(U, perms)) <==>
            && (forall h :: h in T && !T[h].Value? <==> h in U && !U[h].Value?)
            && forall h <- T | !T[h].Value? ::
                 match (T[h], U[h])
                 case (Primary(u, _), Primary(v, _)) => u == v
                 case (Included(_, s, e), Included(_, s', e')) => s == s' && e == e'
                 case (Chrc(u, _, _), Chrc(v, _, _)) => u == v
                 case (Desc(u, _), Desc(v, _)) => u == v
                 case _ => false
  {
    ContainedExactly(T, U, perms);
    EqualByContainment(T, U, perms);
  }

  lemma EqualIsContained(m: Db, n: Db)
    ensures SameDb(m, n) <==> ContainsAll(n, m) && m.Keys == n.Keys
  {
    forall h | h in m && h in n ensures n[h].Eq(m[h]) <==> m[h].Eq(n[h]) {
      EqIsEquivalence(m[h], n[h], n[h]);
    }
  }

  lemma HandlesOfViews(T: Table, U: Table, perms: int -> byte)
    ensures Expected(T).Keys == FetchedDb(U, perms).Keys <==>
            forall h :: h in T && !T[h].Value? <==> h in U && !U[h].Value?
  {
    var m, n := Expected(T), FetchedDb(U, perms);
    assert forall h :: h in m.Keys <==> h in T && !T[h].Value?;
    assert forall h :: h in n.Keys <==> h in U && !U[h].Value?;
    if forall h :: h in T && !T[h].Value? <==> h in U && !U[h].Value? {
      assert forall h :: h in m.Keys <==> h in n.Keys;
    }
  }

  /** Equal databases: containment, and no handle more. */
  lemma EqualByContainment(T: Table, U: Table, perms: int -> byte)
    requires WellFormed(T) && OnlyPrimary(T) && Roomy(T)
    ensures SameDb(DiscoverFull(T, map[], true).db, FetchedDb(U, perms)) <==>
            && ContainsAll(FetchedDb(U, perms), DiscoverFull(T, map[], true).db)
            && (forall h :: h in T && !T[h].Value? <==> h in U && !U[h].Value?)
  {
    DiscoveryIsExact(T);
    EqualIsContained(Expected(T), FetchedDb(U, perms));
    HandlesOfViews(T, U, perms);
  }

  /**
   From end to end: the client discovers a table T over the link, the server side fetches a table U, and the
   code's own comparison says exactly whether U declares all that T does.
   */
  method CompareViews(arrive: Arrivals, handler: Workers.Handler, attrs: seq<Attribute>, read: Reader,
                      ghost T: Table, ghost U: Table, ghost perms: int -> byte) returns (r: bool)
    requires Serves(T, arrive) && HandlesAll(handler)
    requires WellFormed(T) && OnlyPrimary(T) && Roomy(T) && WellFormed(U)
    requires attrs == AttrsOf(U, perms, Sorted(U.Keys)) && read == TableReader(U)
    ensures r <==>
            forall h <- T | !T[h].Value? ::
              && h in U
              && match (T[h], U[h])
                 case (Primary(u, _), Primary(v, _)) => u == v
                 case (Included(_, s, e), Included(_, s', e')) => s == s' && e == e'
                 case (Chrc(u, _, _), Chrc(v, _, _)) => u == v
                 case (Desc(u, _), Desc(v, _)) => u == v
                 case _ => false
  {
    var client, _ := DiscoverOverLink(arrive, handler, T);
    var server := new GattDB();
    SetLoopExact(U, perms);
    var err := GattServerFetchDb(attrs, read, server);
    DiscoveryIsExact(T);
    ContainedExactly(T, U, perms);
    r := server.Contains(client);
  }
}
