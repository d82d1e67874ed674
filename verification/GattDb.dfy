/** The attribute database (stack/gatt.py). */
module GattDb {
  import opened Bytes
  import opened Sorting

  const MAX_HANDLE := 0xffff

  /** The classes that the database distinguishes when it searches. */
  datatype Class = ServiceClass | IncludedClass | CharacteristicClass | DescriptorClass

  /** The attribute classes. `perm`, `attRsp` and the last field of a class take no part in equality. */
  datatype DbAttr =
    | GattPrimary(handle: int, perm: int, uuid: string, attRsp: int, endHdl: Option<int>)
    | GattSecondary(handle: int, perm: int, uuid: string, attRsp: int, endHdl: Option<int>)
    | GattServiceIncluded(handle: int, perm: int, inclUuid: Option<string>, attRsp: int, inclSvcHdl: int,
        endGrpHdl: int)
    | GattCharacteristic(handle: int, perm: int, uuid: string, attRsp: int, prop: int, valueHandle: int)
    | GattCharacteristicDescriptor(handle: int, perm: int, uuid: string, attRsp: int, value: Option<seq<byte>>)
  {
    /** `isinstance`. */
    predicate IsA(cls: Class) {
      match cls
      case ServiceClass => GattPrimary? || GattSecondary?
      case IncludedClass => GattServiceIncluded?
      case CharacteristicClass => GattCharacteristic?
      case DescriptorClass => GattCharacteristicDescriptor?
    }

    /** The `uuid` field; an included service may lack one. */
    function UuidField(): Option<string> {
      if GattServiceIncluded? then inclUuid else Some(uuid)
    }

    /** `__eq__`: the same class, handle and UUID; for an included service its two handles instead. */
    predicate Eq(other: DbAttr) {
      match (this, other)
      case (GattServiceIncluded(h, _, _, _, s, e), GattServiceIncluded(h', _, _, _, s', e')) =>
        h == h' && s == s' && e == e'
      case (GattPrimary(h, _, u, _, _), GattPrimary(h', _, u', _, _)) => h == h' && u == u'
      case (GattSecondary(h, _, u, _, _), GattSecondary(h', _, u', _, _)) => h == h' && u == u'
      case (GattCharacteristic(h, _, u, _, _, _), GattCharacteristic(h', _, u', _, _, _)) => h == h' && u == u'
      case (GattCharacteristicDescriptor(h, _, u, _, _), GattCharacteristicDescriptor(h', _, u', _, _)) =>
        h == h' && u == u'
      case _ => false
    }
  }

  type Db = map<int, DbAttr>

  // ---- Views sorted by handle ----

  /** The attributes at the given handles that belong to a class, in that order. */
  function Select(m: Db, ks: seq<int>, cls: Class): (l: seq<DbAttr>)
    requires forall i | 0 <= i < |ks| :: ks[i] in m
    ensures forall i | 0 <= i < |l| :: l[i].IsA(cls)
  {
    if ks == [] then []
    else
      var rest := Select(m, ks[1..], cls);
      if m[ks[0]].IsA(cls) then [m[ks[0]]] + rest else rest
  }

  function Instances(m: Db, cls: Class): (l: seq<DbAttr>)
    ensures forall i | 0 <= i < |l| :: l[i].IsA(cls)
  {
    Select(m, Sorted(m.Keys), cls)
  }

  /** Every attribute is stored under its own handle, as all callers do. */
  predicate Keyed(m: Db) {
    forall h <- m :: m[h].handle == h
  }

  lemma {:induction false} SelectExact(m: Db, ks: seq<int>, cls: Class)
    requires (forall i | 0 <= i < |ks| :: ks[i] in m) && Ascending(ks) && Keyed(m)
    ensures var l := Select(m, ks, cls);
            && (forall a :: a in l <==> a.handle in ks && m[a.handle] == a && a.IsA(cls))
            && (forall i, j | 0 <= i < j < |l| :: l[i].handle < l[j].handle)
  {
    if ks != [] {
      var rest := Select(m, ks[1..], cls);
      SelectExact(m, ks[1..], cls);
      assert forall k :: k in ks <==> k == ks[0] || k in ks[1..];
      assert forall a <- rest :: ks[0] < a.handle by {
        forall a <- rest ensures ks[0] < a.handle {
          var i :| 0 <= i < |ks[1..]| && ks[1..][i] == a.handle;
          assert ks[0] < ks[i + 1];
        }
      }
    }
  }

  /** A sorted view lists exactly the stored attributes of its class, by ascending handle. */
  lemma InstancesExact(m: Db, cls: Class)
    requires Keyed(m)
    ensures var l := Instances(m, cls);
            && (forall a :: a in l <==> a.handle in m && m[a.handle] == a && a.IsA(cls))
            && (forall i, j | 0 <= i < j < |l| :: l[i].handle < l[j].handle)
  {
    SelectExact(m, Sorted(m.Keys), cls);
  }


  predicate IsMatch(a: DbAttr, cls: Class, uuid: string) {
    a.IsA(cls) && a.UuidField() == Some(uuid)
  }

  // ---- The end of a characteristic ----

  /** The entries behind a handle that are not descriptors. */
  function NonDescriptorsAfter(m: Db, hdl: int): set<int> {
    set h | h in m && h > hdl && !m[h].GattCharacteristicDescriptor?
  }

  /**
   What the end of a characteristic is: none if the next entry that counts is two handles on, else
   the handle before the next entry that is not a descriptor, else the last handle there is.
   */
  function CharacteristicEnd(m: Db, hdl: int): Result<Option<int>> {
    if hdl !in m || !m[hdl].GattCharacteristic? then Err(NotACharacteristic)
    else if hdl + 2 in m && (hdl + 1 in m ==> m[hdl + 1].GattCharacteristicDescriptor?) then Ok(None)
    else
      var later := NonDescriptorsAfter(m, hdl);
      Ok(Some(if later == {} then MAX_HANDLE else Min(later) - 1))
  }

  /** The loop goes on past this handle. */
  predicate PassedOver(m: Db, hdl: int, h: int)
    requires h in m
  {
    h <= hdl || (h != hdl + 2 && m[h].GattCharacteristicDescriptor?)
  }

  lemma EarlierPassedOver(m: Db, hdl: int, handles: seq<int>, i: nat)
    requires handles == Sorted(m.Keys) && i < |handles|
    requires forall j | 0 <= j < i :: PassedOver(m, hdl, handles[j])
    ensures forall k <- m | k < handles[i] :: PassedOver(m, hdl, k)
  {
    forall k <- m | k < handles[i] ensures PassedOver(m, hdl, k) {
      assert k in handles;
      var j :| 0 <= j < |handles| && handles[j] == k;
    }
  }

  lemma FirstThatStops(m: Db, hdl: int, next: int)
    requires hdl in m && m[hdl].GattCharacteristic?
    requires next in m && next > hdl && next != hdl + 2 && !m[next].GattCharacteristicDescriptor?
    requires forall k <- m | k < next :: PassedOver(m, hdl, k)
    ensures CharacteristicEnd(m, hdl) == Ok(Some(next - 1))
  {
    var later := NonDescriptorsAfter(m, hdl);
    assert next in later && forall x <- later :: next <= x;
  }

  /** One round of the loop over the handles. */
  lemma EndRound(m: Db, hdl: int, handles: seq<int>, i: nat)
    requires hdl in m && m[hdl].GattCharacteristic? && handles == Sorted(m.Keys) && i < |handles|
    requires forall j | 0 <= j < i :: PassedOver(m, hdl, handles[j])
    ensures var next := handles[i];
            && next in m
            && (next > hdl && next == hdl + 2 ==> CharacteristicEnd(m, hdl) == Ok(None))
            && (next <= hdl || (next != hdl + 2 && m[next].GattCharacteristicDescriptor?) ==> PassedOver(m, hdl, next))
            && (next > hdl && next != hdl + 2 && !m[next].GattCharacteristicDescriptor? ==>
                CharacteristicEnd(m, hdl) == Ok(Some(next - 1)))
  {
    var next := handles[i];
    assert next in handles;
    if next > hdl {
      EarlierPassedOver(m, hdl, handles, i);
      if next != hdl + 2 && !m[next].GattCharacteristicDescriptor? {
        FirstThatStops(m, hdl, next);
      }
    }
  }

  lemma NothingStops(m: Db, hdl: int, handles: seq<int>)
    requires hdl in m && m[hdl].GattCharacteristic? && handles == Sorted(m.Keys)
    requires forall j | 0 <= j < |handles| :: PassedOver(m, hdl, handles[j])
    ensures CharacteristicEnd(m, hdl) == Ok(Some(MAX_HANDLE))
  {
    forall k <- m ensures PassedOver(m, hdl, k) {
      assert k in handles;
      var j :| 0 <= j < |handles| && handles[j] == k;
    }
    assert NonDescriptorsAfter(m, hdl) == {};
  }

  /** `contains`: `other.db.items() <= self.db.items()`. */
  predicate ContainsAll(m: Db, other: Db) {
    forall h <- other :: h in m && m[h].Eq(other[h])
  }

  /** `__eq__` of the dictionaries. */
  predicate SameDb(m: Db, other: Db) {
    m.Keys == other.Keys && forall h <- m :: m[h].Eq(other[h])
  }

  // ---- What is stored, after any operations ----

  datatype DbOp = AddOp(handle: int, attr: DbAttr) | ClearOp

  function Did(m: Db, op: DbOp): Db {
    match op
    case AddOp(handle, attr) => m[handle := attr]
    case ClearOp => map[]
  }

  /** The database after a sequence of operations on an empty one. */
  function Done(ops: seq<DbOp>): Db {
    if ops == [] then map[] else Did(Done(ops[..|ops| - 1]), ops[|ops| - 1])
  }

  function Lookup(m: Db, handle: int): Option<DbAttr> {
    if handle in m then Some(m[handle]) else None
  }

  predicate Touches(op: DbOp, handle: int) {
    op.ClearOp? || op.handle == handle
  }

  /** The k-th operation is the last one that matters for the handle. */
  predicate Decides(ops: seq<DbOp>, handle: int, k: nat) {
    k < |ops| && Touches(ops[k], handle) && forall j | k < j < |ops| :: !Touches(ops[j], handle)
  }

  /** A look-up gives what was stored last under the handle, unless the database was cleared since. */
  lemma {:induction false} LastWriteWins(ops: seq<DbOp>, handle: int)
    ensures Lookup(Done(ops), handle).None? <==> forall k | 0 <= k < |ops| && Decides(ops, handle, k) :: ops[k].ClearOp?
    ensures forall k | 0 <= k < |ops| && Decides(ops, handle, k) && ops[k].AddOp? ::
              Lookup(Done(ops), handle) == Some(ops[k].attr)
    decreases |ops|
  {
    if ops != [] {
      var n := |ops| - 1;
      LastWriteWins(ops[..n], handle);
      if Touches(ops[n], handle) {
        assert Decides(ops, handle, n);
      } else {
        forall k | 0 <= k < n ensures Decides(ops, handle, k) <==> Decides(ops[..n], handle, k) {
          assert ops[..n][k] == ops[k] && forall j | k < j < n :: ops[..n][j] == ops[j];
        }
      }
    }
  }

  class GattDB {
    var db: Db

    constructor ()
      ensures db == map[]
    {
      db := map[];
    }

    method Clear()
      modifies this
      ensures db == Did(old(db), ClearOp) == map[]
    {
      db := map[];
    }

    method AttrAdd(handle: int, attr: DbAttr)
      modifies this
      ensures db == Did(old(db), AddOp(handle, attr)) == old(db)[handle := attr]
    {
      db := db[handle := attr];
    }

    method AttrLookupHandle(handle: int) returns (r: Option<DbAttr>)
      ensures r == Lookup(db, handle)
    {
      r := if handle in db then Some(db[handle]) else None;
    }

    /** The four searches by UUID: the first match by handle among the attributes of one class. */
    method FindByUuid(cls: Class, uuid: string) returns (r: Option<DbAttr>)
      ensures r.None? ==> forall h <- db :: !IsMatch(db[h], cls, uuid)
      ensures r.Some? ==> exists h <- db :: db[h] == r.value && IsMatch(db[h], cls, uuid)
                                            && forall k <- db | k < h :: !IsMatch(db[k], cls, uuid)
    {
      var handles := Sorted(db.Keys);
      for i := 0 to |handles|
        invariant forall j | 0 <= j < i :: !IsMatch(db[handles[j]], cls, uuid)
      {
        var attr := db[handles[i]];
        if IsMatch(attr, cls, uuid) {
          forall k | k in db && k < handles[i] ensures !IsMatch(db[k], cls, uuid) {
            assert k in handles;
          }
          return Some(attr);
        }
      }
      forall h | h in db ensures !IsMatch(db[h], cls, uuid) {
        assert h in handles;
      }
      return None;
    }

    /** `get_services`, `get_characteristics`, `get_descriptors`. */
    method GetInstances(cls: Class) returns (r: seq<DbAttr>)
      ensures r == Instances(db, cls)
    {
      r := Instances(db, cls);
    }

    method FindCharacteristicEnd(hdl: int) returns (r: Result<Option<int>>)
      ensures r == CharacteristicEnd(db, hdl)
    {
      if hdl !in db || !db[hdl].GattCharacteristic? {
        return Err(NotACharacteristic);
      }
      var handles := Sorted(db.Keys);
      for i := 0 to |handles|
        invariant forall j | 0 <= j < i :: PassedOver(db, hdl, handles[j])
      {
        var nextHdl := handles[i];
        EndRound(db, hdl, handles, i);
        if nextHdl <= hdl {
          continue;
        }
        if nextHdl == hdl + 2 {
          return Ok(None);
        }
        if db[nextHdl].GattCharacteristicDescriptor? {
          continue;
        }
        return Ok(Some(nextHdl - 1));
      }
      NothingStops(db, hdl, handles);
      return Ok(Some(MAX_HANDLE));
    }

    method Contains(other: GattDB) returns (r: bool)
      ensures r == ContainsAll(db, other.db)
    {
      r := ContainsAll(db, other.db);
    }
  }

  lemma EqIsEquivalence(a: DbAttr, b: DbAttr, c: DbAttr)
    ensures a.Eq(a) && (a.Eq(b) <==> b.Eq(a)) && (a.Eq(b) && b.Eq(c) ==> a.Eq(c))
  {
  }

  /** What the equality compares, and all that it compares. */
  lemma EqMeans(a: DbAttr, b: DbAttr)
    ensures a.Eq(b) <==>
            && a.handle == b.handle
            && (a.GattPrimary? <==> b.GattPrimary?) && (a.GattSecondary? <==> b.GattSecondary?)
            && (a.GattCharacteristic? <==> b.GattCharacteristic?)
            && (a.GattServiceIncluded? <==> b.GattServiceIncluded?)
            && (a.GattServiceIncluded? ==> a.inclSvcHdl == b.inclSvcHdl && a.endGrpHdl == b.endGrpHdl)
            && (!a.GattServiceIncluded? ==> a.uuid == b.uuid)
  {
  }

  /** The classes of the searches and the field that they compare. */
  lemma MatchMeans(a: DbAttr, u: string)
    ensures IsMatch(a, ServiceClass, u) <==> (a.GattPrimary? || a.GattSecondary?) && a.uuid == u
    ensures IsMatch(a, IncludedClass, u) <==> a.GattServiceIncluded? && a.inclUuid == Some(u)
    ensures IsMatch(a, CharacteristicClass, u) <==> a.GattCharacteristic? && a.uuid == u
    ensures IsMatch(a, DescriptorClass, u) <==> a.GattCharacteristicDescriptor? && a.uuid == u
  {
  }

  /**
   Containment is a partial order, whose equality is that of databases: each contains itself, two are equal
   exactly when each contains the other, and what a contained one contains is contained.
   */
  lemma ContainmentIsPartialOrder(m: Db, n: Db, o: Db)
    ensures ContainsAll(m, m)
    ensures ContainsAll(m, n) && ContainsAll(n, m) <==> SameDb(m, n)
    ensures ContainsAll(m, n) && ContainsAll(n, o) ==> ContainsAll(m, o)
  {
    forall h <- m ensures m[h].Eq(m[h]) {
      EqIsEquivalence(m[h], m[h], m[h]);
    }
    forall h | h in m && h in n ensures n[h].Eq(m[h]) <==> m[h].Eq(n[h]) {
      EqIsEquivalence(m[h], n[h], n[h]);
    }
    if ContainsAll(m, n) && ContainsAll(n, m) {
      assert forall h :: h in m <==> h in n;
    }
    if ContainsAll(m, n) && ContainsAll(n, o) {
      forall h <- o ensures h in m && m[h].Eq(o[h]) {
        EqIsEquivalence(m[h], n[h], o[h]);
      }
    }
  }

  // ---- Descriptor ranges ----

  /** What discovery has stored before it asks for descriptors. */
  predicate BeforeDescriptors(m: Db) {
    && Keyed(m)
    && (forall h <- m :: 0 < h <= MAX_HANDLE && !m[h].GattCharacteristicDescriptor?)
    && (forall h <- m | m[h].GattCharacteristic? ::
          m[h].valueHandle == h + 1 && m[h].valueHandle < MAX_HANDLE && h + 1 !in m)
  }

  /**
   The ranges in which descriptors are looked for: from behind the value to the end of each
   characteristic, without those that have none.
   */
  function DescriptorRanges(m: Db, chars: seq<DbAttr>): seq<(int, int)>
    requires forall i | 0 <= i < |chars| :: chars[i].GattCharacteristic?
  {
    if chars == [] then []
    else
      var rest := DescriptorRanges(m, chars[1..]);
      match CharacteristicEnd(m, chars[0].handle)
      case Ok(Some(e)) => [(chars[0].valueHandle + 1, e)] + rest
      case _ => rest
  }

  /** With nothing at the value handles, there is no range exactly when the next entry follows at once. */
  lemma CharacteristicEndExact(m: Db, c: int)
    requires BeforeDescriptors(m) && c in m && m[c].GattCharacteristic?
    ensures CharacteristicEnd(m, c) == Ok(None) <==> c + 2 in m
    ensures c + 2 !in m ==>
              exists e | CharacteristicEnd(m, c) == Ok(Some(e)) ::
                && c + 2 <= e <= MAX_HANDLE
                && (forall h | c < h <= e :: h !in m)
                && (e + 1 in m || e == MAX_HANDLE)
  {
    if c + 2 !in m {
      var later := NonDescriptorsAfter(m, c);
      assert forall h | c < h && h in m :: h in later;
    }
  }

  predicate SortedRanges(rs: seq<(int, int)>, from: int) {
    forall i | 0 <= i < |rs| :: rs[i].0 <= rs[i].1 && from < rs[i].0 && forall j | i < j < |rs| :: rs[i].1 < rs[j].0
  }

  lemma {:induction false} RangesInOrder(m: Db, chars: seq<DbAttr>, from: int)
    requires BeforeDescriptors(m)
    requires forall i | 0 <= i < |chars| ::
               chars[i].GattCharacteristic? && chars[i].handle in m && m[chars[i].handle] == chars[i] &&
                   from <= chars[i].handle
    requires forall i, j | 0 <= i < j < |chars| :: chars[i].handle < chars[j].handle
    ensures SortedRanges(DescriptorRanges(m, chars), from)
    ensures forall r <- DescriptorRanges(m, chars), h | r.0 <= h <= r.1 :: h !in m
    ensures forall r <- DescriptorRanges(m, chars) :: r.1 <= MAX_HANDLE
  {
    if chars != [] {
      var c := chars[0].handle;
      CharacteristicEndExact(m, c);
      if c + 2 in m {
        RangesInOrder(m, chars[1..], from);
      } else {
        var e := CharacteristicEnd(m, c).value.value;
        forall i | 0 <= i < |chars[1..]| ensures e < chars[1..][i].handle {
          assert chars[1..][i] == chars[i + 1] && chars[0].handle < chars[i + 1].handle;
        }
        RangesInOrder(m, chars[1..], e);
        ConsRange((c + 2, e), DescriptorRanges(m, chars[1..]), from);
      }
    }
  }

  lemma ConsRange(r: (int, int), rest: seq<(int, int)>, from: int)
    requires from < r.0 <= r.1 && SortedRanges(rest, r.1)
    ensures SortedRanges([r] + rest, from)
  {
    var rs := [r] + rest;
    forall i | 0 <= i < |rs|
      ensures rs[i].0 <= rs[i].1 && from < rs[i].0 && forall j | i < j < |rs| :: rs[i].1 < rs[j].0
    {
      assert forall j | 0 < j < |rs| :: rs[j] == rest[j - 1];
    }
  }

  /**
   The ranges asked for are not empty, ascend without overlapping, and contain no attribute that is
   already known.
   */
  lemma DescriptorRangesExact(m: Db)
    requires BeforeDescriptors(m)
    ensures var rs := DescriptorRanges(m, Instances(m, CharacteristicClass));
            && SortedRanges(rs, 0)
            && (forall r <- rs, h | r.0 <= h <= r.1 :: h !in m)
            && (forall r <- rs :: r.1 <= MAX_HANDLE)
  {
    InstancesExact(m, CharacteristicClass);
    RangesInOrder(m, Instances(m, CharacteristicClass), 0);
  }
}
