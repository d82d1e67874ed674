/**
 An attribute server as the device presents it: the table behind the discovery commands, in the terms
 of Bluetooth Core Specification Vol 3 Part G, sections 3.1 to 3.3 (the table) and 4.4 to 4.7 (the
 discovery procedures).
 */
module Server {
  import opened Bytes
  import opened Text
  import opened Sorting
  import opened GattCodec
  import opened GattDb

  datatype Attr =
    | Primary(uuid: seq<byte>, end: u16)
    | Secondary(uuid: seq<byte>, end: u16)
    | Included(uuid: seq<byte>, svcHdl: u16, endHdl: u16)
    | Chrc(uuid: seq<byte>, props: byte, valueHdl: u16)
    | Value(uuid: seq<byte>, value: seq<byte>)
    | Desc(uuid: seq<byte>, value: seq<byte>)
  {
    predicate IsService() {
      Primary? || Secondary?
    }

    /** The attribute's type, as Find Information reports it. */
    function TypeUuid(): seq<byte> {
      match this
      case Primary(_, _) => [0x00, 0x28]
      case Secondary(_, _) => [0x01, 0x28]
      case Included(_, _, _) => [0x02, 0x28]
      case Chrc(_, _, _) => [0x03, 0x28]
      case Value(u, _) => u
      case Desc(u, _) => u
    }
  }

  predicate InRange(h: int) {
    0 < h <= MAX_HANDLE
  }

  /** Handles fit 16 bits and UUIDs have one of the two lengths. */
  predicate Sane(T: map<int, Attr>) {
    forall h <- T :: InRange(h) && IsUuid(T[h].uuid)
  }

  /** The server's attributes by handle. */
  type Table = T: map<int, Attr> | Sane(T) witness map[]

  /** Descriptor d belongs to the characteristic declared at c: only descriptors lie between its value and d. */
  predicate Owns(T: Table, c: int, d: int) {
    && c in T && T[c].Chrc?
    && d in T && T[d].Desc?
    && c < d && forall k <- T | c + 1 < k < d :: T[k].Desc?
  }

  /** The service declared at s spans handle h. */
  predicate Spans(T: Table, s: int, h: int) {
    s in T && T[s].IsService() && s < h <= T[s].end as int
  }

  /** The types that declare an attribute other than a value or a descriptor. */
  predicate IsDeclarationType(u: seq<byte>) {
    |u| == 2 && u[1] == 0x28 && u[0] <= 0x03
  }

  /**
   Includes and characteristics lie inside a service; a characteristic value follows its declaration
   at once and has the declared UUID; descriptors follow a characteristic.
   */
  ghost predicate PlacedRight(T: Table, h: int)
    requires h in T
  {
    match T[h]
    case Primary(_, _) => true
    case Secondary(_, _) => true
    case Included(_, _, _) => exists s :: Spans(T, s, h)
    case Chrc(u, _, vh) =>
      (exists s :: Spans(T, s, h)) && vh as int == h + 1 && h + 1 in T && T[h + 1].Value? && T[h + 1].uuid == u
    case Value(u, _) => h - 1 in T && T[h - 1].Chrc? && !IsDeclarationType(u)
    case Desc(u, _) => (exists c :: Owns(T, c, h)) && !IsDeclarationType(u)
  }

  ghost predicate WellFormed(T: Table) {
    forall h {:trigger PlacedRight(T, h)} | h in T :: PlacedRight(T, h)
  }

  ghost predicate OnlyPrimary(T: Table) {
    forall h <- T :: !T[h].Secondary?
  }

  // ---- The discovery commands ----

  datatype Query =
    | AllPrimary
    | FindIncluded(start: int, end: int)
    | AllChrc(start: int, end: int)
    | AllDesc(start: int, end: int)
  {
    function KindOf(): Kind {
      match this
      case AllPrimary => Service
      case FindIncluded(_, _) => Include
      case AllChrc(_, _) => Characteristic
      case AllDesc(_, _) => Descriptor
    }

    /** The handles of the query fit their 16-bit fields. */
    predicate Packable() {
      AllPrimary? || (0 <= start <= MAX_HANDLE && 0 <= end <= MAX_HANDLE)
    }
  }

  /** The attributes a query asks for. In a descriptor search the server reports whatever is in the range. */
  predicate Matches(T: Table, q: Query, h: int)
    requires h in T
  {
    match q
    case AllPrimary => T[h].Primary?
    case FindIncluded(s, e) => s <= h <= e && T[h].Included?
    case AllChrc(s, e) => s <= h <= e && T[h].Chrc?
    case AllDesc(s, e) => s <= h <= e
  }

  function EntryFor(T: Table, q: Query, h: int): (e: RawEntry)
    requires h in T && InRange(h) && Matches(T, q, h)
    ensures e.KindOf() == q.KindOf()
  {
    match q
    case AllPrimary => ServiceEntry(h, T[h].end, T[h].uuid)
    case FindIncluded(_, _) => IncludeEntry(h, T[h].svcHdl, T[h].endHdl, T[h].uuid)
    case AllChrc(_, _) => CharacteristicEntry(h, T[h].valueHdl, T[h].props, T[h].uuid)
    case AllDesc(_, _) => DescriptorEntry(h, T[h].TypeUuid())
  }

  function AnswerFrom(T: Table, q: Query, ks: seq<int>): (es: seq<RawEntry>)
    requires forall i | 0 <= i < |ks| :: ks[i] in T
    ensures EntriesOf(q.KindOf(), es)
  {
    if ks == [] then []
    else
      var rest := AnswerFrom(T, q, ks[1..]);
      if Matches(T, q, ks[0]) then [EntryFor(T, q, ks[0])] + rest else rest
  }

  /** The entries of the response, by ascending handle. */
  function Answer(T: Table, q: Query): seq<RawEntry> {
    AnswerFrom(T, q, Sorted(T.Keys))
  }

  /** A response has room for the answer. */
  predicate HasRoom(T: Table, q: Query) {
    |Answer(T, q)| < 0x100
  }

  /**
   Sending a query and receiving its response. A handle that does not fit is an error of the client; an
   answer that does not fit is refused by the device with the status opcode.
   */
  function Ask(T: Table, q: Query): Result<seq<byte>> {
    if !q.Packable() then Err(StructError)
    else if !HasRoom(T, q) then Err(InvalidStatus)
    else Ok(EncodeResponse(q.KindOf(), Answer(T, q)))
  }
}
