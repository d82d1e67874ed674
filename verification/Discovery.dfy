/** Discovery by the client: the response handlers and the full procedure (pybtp/btp.py, stack/gatt.py). */
module Discovery {
  import opened Bytes
  import opened Text
  import opened Sorting
  import opened GattCodec
  import opened GattDb
  import opened Server
  import opened Link

  /** The database after a step, and the exception that ended it, if any. */
  datatype Outcome = Outcome(db: Db, err: Option<Error>)

  /** The attribute that a response entry stands for, with the handle it is stored under. */
  function StoredAs(e: RawEntry): Result<DbAttr> {
    var uuid :- Btp2Uuid(|e.uuid|, e.uuid);
    match e
    case ServiceEntry(s, end, _) => Ok(GattPrimary(s, 1, uuid, 0, Some(end as int)))
    case IncludeEntry(h, s, end, _) => Ok(GattServiceIncluded(h, 1, Some(uuid), 0, s, end))
    case CharacteristicEntry(h, vh, props, _) => Ok(GattCharacteristic(h, 1, uuid, 0, props, vh))
    case DescriptorEntry(h, _) => Ok(GattCharacteristicDescriptor(h, 1, uuid, 0, None))
  }

  /** Entries are stored in order; a UUID of another length ends it with those before stored. */
  function StoreAll(m: Db, es: seq<RawEntry>): Outcome
    decreases |es|
  {
    if es == [] then Outcome(m, None)
    else
      match StoredAs(es[0])
      case Err(e) => Outcome(m, Some(e))
      case Ok(a) => StoreAll(m[a.handle := a], es[1..])
  }

  /** A command and the handling of its response. */
  function Fetch(T: Table, q: Query, m: Db): Outcome {
    match Ask(T, q)
    case Err(e) => Outcome(m, Some(e))
    case Ok(data) =>
      match DecDiscRsp(q.KindOf(), data)
      case Err(e) => Outcome(m, Some(e))
      case Ok(es) => StoreAll(m, es)
  }

  type Step = (DbAttr, Db) -> Outcome

  /** A loop over attributes that an exception ends early. */
  function ForEach(step: Step, items: seq<DbAttr>, m: Db): Outcome
    decreases |items|
  {
    if items == [] then Outcome(m, None)
    else
      var o := step(items[0], m);
      if o.err.Some? then o else ForEach(step, items[1..], o.db)
  }

  /** A service as a discovery response describes it, with the end of its group. */
  predicate HasEnd(svc: DbAttr) {
    svc.IsA(ServiceClass) && svc.endHdl.Some?
  }

  function EndOf(svc: DbAttr): int
    requires HasEnd(svc)
  {
    svc.endHdl.value
  }

  /** The includes, then the characteristics of one service. */
  function DiscoverService(T: Table, svc: DbAttr, m: Db): Outcome {
    if !HasEnd(svc) then Outcome(m, Some(StructError))
    else
      var o := Fetch(T, FindIncluded(svc.handle, EndOf(svc)), m);
      if o.err.Some? then o else Fetch(T, AllChrc(svc.handle, EndOf(svc)), o.db)
  }

  /**
   The descriptors of one characteristic. With `skipEmpty`, a characteristic without an end is passed
   over; otherwise it fails an assertion.
   */
  function DiscoverDescriptorsOf(T: Table, c: DbAttr, m: Db, skipEmpty: bool): Outcome {
    match CharacteristicEnd(m, c.handle)
    case Err(e) => Outcome(m, Some(e))
    case Ok(None) => Outcome(m, if skipEmpty then None else Some(AssertionError))
    case Ok(Some(end)) =>
      if c.GattCharacteristic? then Fetch(T, AllDesc(c.valueHandle + 1, end), m)
      else Outcome(m, Some(NotACharacteristic))
  }

  function ServiceStep(T: Table): Step {
    (svc, m) => DiscoverService(T, svc, m)
  }

  function DescriptorStep(T: Table, skipEmpty: bool): Step {
    (c, m) => DiscoverDescriptorsOf(T, c, m, skipEmpty)
  }

  function Services(m: Db): seq<DbAttr> {
    Instances(m, ServiceClass)
  }

  function Characteristics(m: Db): seq<DbAttr> {
    Instances(m, CharacteristicClass)
  }

  /**
   `gattc_disc_full`. The second loop takes the ends of the characteristics from the database that
   the same loop adds descriptors to.
   */
  function DiscoverFull(T: Table, m: Db, skipEmpty: bool): Outcome {
    var o1 := Fetch(T, AllPrimary, m);
    if o1.err.Some? then o1
    else
      var o2 := ForEach(ServiceStep(T), Services(o1.db), o1.db);
      if o2.err.Some? then o2 else ForEach(DescriptorStep(T, skipEmpty), Characteristics(o2.db), o2.db)
  }

  // ---- The procedure as the driver runs it, over a database object ----

  /** A response handler: decodes the payload and adds what it lists. */
  method HandleResponse(data: seq<byte>, kind: Kind, db: GattDB) returns (err: Option<Error>)
    modifies db
    ensures var o := match DecDiscRsp(kind, data)
                     case Err(e) => Outcome(old(db.db), Some(e))
                     case Ok(es) => StoreAll(old(db.db), es);
            db.db == o.db && err == o.err
  {
    var dec := GattDecDiscRsp(data, kind);
    if dec.Err? {
      return Some(dec.error);
    }
    var es := dec.value;
    var i := 0;
    ghost var all := StoreAll(db.db, es);
    assert es[0..] == es;
    while i < |es|
      invariant i <= |es| && all == StoreAll(db.db, es[i..])
    {
      var a := StoredAs(es[i]);
      if a.Err? {
        return Some(a.error);
      }
      assert es[i..][1..] == es[i + 1..];
      db.AttrAdd(a.value.handle, a.value);
      i := i + 1;
    }
    return None;
  }

  /** A command to a device with this table, over the link, and the handling of its response. */
  method Command(host: Host, ghost T: Table, q: Query, db: GattDB) returns (err: Option<Error>)
    requires host.Ready(T)
    modifies host, host.worker, host.sock, db
    ensures host.Ready(T) && Outcome(db.db, err) == Fetch(T, q, old(db.db))
  {
    var rsp := host.Exchange(q, T);
    if rsp.Err? {
      return Some(rsp.error);
    }
    err := HandleResponse(rsp.value, q.KindOf(), db);
  }

  method ServiceCommands(host: Host, ghost T: Table, db: GattDB, svc: DbAttr) returns (err: Option<Error>)
    requires host.Ready(T)
    modifies host, host.worker, host.sock, db
    ensures host.Ready(T) && Outcome(db.db, err) == DiscoverService(T, svc, old(db.db))
  {
    if !HasEnd(svc) {
      return Some(StructError);
    }
    var start, end := svc.handle, EndOf(svc);
    err := Command(host, T, FindIncluded(start, end), db);
    if err.Some? {
      return;
    }
    err := Command(host, T, AllChrc(start, end), db);
  }

  method DescriptorCommand(host: Host, ghost T: Table, db: GattDB, c: DbAttr, skipEmpty: bool)
      returns (err: Option<Error>)
    requires host.Ready(T)
    modifies host, host.worker, host.sock, db
    ensures host.Ready(T) && Outcome(db.db, err) == DiscoverDescriptorsOf(T, c, old(db.db), skipEmpty)
  {
    var endHdl := db.FindCharacteristicEnd(c.handle);
    QueryDecides(T, c, db.db, skipEmpty);
    var q := DescriptorQuery(c, endHdl, skipEmpty);
    if q.Err? {
      return Some(q.error);
    }
    if q.value.None? {
      return None;
    }
    err := Command(host, T, q.value.value, db);
  }

  /** What is to be asked for, given the end that was found. */
  function DescriptorQuery(c: DbAttr, end: Result<Option<int>>, skipEmpty: bool): Result<Option<Query>> {
    match end
    case Err(e) => Err(e)
    case Ok(None) => if skipEmpty then Ok(None) else Err(AssertionError)
    case Ok(Some(end)) =>
      if c.GattCharacteristic? then Ok(Some(AllDesc(c.valueHandle + 1, end))) else Err(NotACharacteristic)
  }

  lemma QueryDecides(T: Table, c: DbAttr, m: Db, skipEmpty: bool)
    ensures DiscoverDescriptorsOf(T, c, m, skipEmpty) ==
            match DescriptorQuery(c, CharacteristicEnd(m, c.handle), skipEmpty)
            case Err(e) => Outcome(m, Some(e))
            case Ok(None) => Outcome(m, None)
            case Ok(Some(q)) => Fetch(T, q, m)
  {
  }

  method ServiceLoop(host: Host, ghost T: Table, db: GattDB, svcs: seq<DbAttr>) returns (err: Option<Error>)
    requires host.Ready(T)
    modifies host, host.worker, host.sock, db
    ensures host.Ready(T) && Outcome(db.db, err) == ForEach(ServiceStep(T), svcs, old(db.db))
  {
    var i := 0;
    ghost var all := ForEach(ServiceStep(T), svcs, db.db);
    assert svcs[0..] == svcs;
    while i < |svcs|
      invariant i <= |svcs| && all == ForEach(ServiceStep(T), svcs[i..], db.db) && host.Ready(T)
    {
      assert svcs[i..][1..] == svcs[i + 1..];
      err := ServiceCommands(host, T, db, svcs[i]);
      if err.Some? {
        return;
      }
      i := i + 1;
    }
    return None;
  }

  method DescriptorLoop(host: Host, ghost T: Table, db: GattDB, chars: seq<DbAttr>, skipEmpty: bool)
      returns (err: Option<Error>)
    requires host.Ready(T)
    modifies host, host.worker, host.sock, db
    ensures host.Ready(T) && Outcome(db.db, err) == ForEach(DescriptorStep(T, skipEmpty), chars, old(db.db))
  {
    var i := 0;
    ghost var all := ForEach(DescriptorStep(T, skipEmpty), chars, db.db);
    assert chars[0..] == chars;
    while i < |chars|
      invariant i <= |chars| && all == ForEach(DescriptorStep(T, skipEmpty), chars[i..], db.db) && host.Ready(T)
    {
      assert chars[i..][1..] == chars[i + 1..];
      err := DescriptorCommand(host, T, db, chars[i], skipEmpty);
      if err.Some? {
        return;
      }
      i := i + 1;
    }
    return None;
  }

  /** `gattc_disc_full`. */
  method GattcDiscFull(host: Host, ghost T: Table, db: GattDB, skipEmpty: bool) returns (err: Option<Error>)
    requires host.Ready(T)
    modifies host, host.worker, host.sock, db
    ensures host.Ready(T) && Outcome(db.db, err) == DiscoverFull(T, old(db.db), skipEmpty)
  {
    err := Command(host, T, AllPrimary, db);
    if err.Some? {
      return;
    }
    var svcs := db.GetInstances(ServiceClass);
    err := ServiceLoop(host, T, db, svcs);
    if err.Some? {
      return;
    }
    var chars := db.GetInstances(CharacteristicClass);
    err := DescriptorLoop(host, T, db, chars, skipEmpty);
  }
}
