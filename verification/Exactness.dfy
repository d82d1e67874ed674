/** What full discovery leaves in the database, for every well-formed table. */
module Exactness {
  import opened Bytes
  import opened Text
  import opened Sorting
  import opened GattCodec
  import opened GattDb
  import opened Server
  import opened Discovery
  import opened Link
  import Workers

  /** The client's record of the attribute at h. */
  function ClientView(T: Table, h: int): DbAttr
    requires h in T
  {
    var text := UuidText(T[h].uuid);
    match T[h]
    case Primary(_, end) => GattPrimary(h, 1, text, 0, Some(end as int))
    case Secondary(_, end) => GattSecondary(h, 1, text, 0, Some(end as int))
    case Included(_, s, end) => GattServiceIncluded(h, 1, Some(text), 0, s, end)
    case Chrc(_, props, vh) => GattCharacteristic(h, 1, text, 0, props, vh)
    case Value(_, _) => GattCharacteristicDescriptor(h, 1, text, 0, None)
    case Desc(_, _) => GattCharacteristicDescriptor(h, 1, text, 0, None)
  }

  /** The whole table except the characteristic values: what discovery is for. */
  function Expected(T: Table): Db {
    map h | h in T && !T[h].Value? :: ClientView(T, h)
  }

  /** What the client makes of an attribute that a query finds: in a descriptor search, a descriptor. */
  function FoundAs(T: Table, q: Query, h: int): DbAttr
    requires h in T
  {
    if q.AllDesc? then GattCharacteristicDescriptor(h, 1, UuidText(T[h].TypeUuid()), 0, None) else ClientView(T, h)
  }

  function Found(T: Table, q: Query): Db {
    map h | h in T && Matches(T, q, h) :: FoundAs(T, q, h)
  }

  function FoundAmong(T: Table, q: Query, ks: seq<int>): Db {
    map h | h in ks && h in T && Matches(T, q, h) :: FoundAs(T, q, h)
  }

  /** Adding a map in two overlapping parts. */
  lemma MergeParts(m: Db, a: Db, b: Db, all: Db)
    requires forall k :: k in all <==> k in a || k in b
    requires forall k <- a :: all[k] == a[k]
    requires forall k <- b :: all[k] == b[k]
    ensures m + a + b == m + all
  {
    var left, right := m + a + b, m + all;
    assert left.Keys == right.Keys by {
      forall k ensures k in left <==> k in right {
        assert k in all <==> k in a || k in b;
      }
    }
    forall k <- left ensures left[k] == right[k] {
    }
  }

  lemma AddOneThenRest(m: Db, h: int, a: DbAttr, rest: Db, all: Db)
    requires forall k :: k in all <==> k == h || k in rest
    requires all[h] == a && forall k <- rest :: all[k] == rest[k]
    ensures m + all == m[h := a] + rest
  {
    MergeParts(m, map[h := a], rest, all);
    assert m[h := a] == m + map[h := a];
  }

  lemma SumOfParts(a: Db, b: Db, all: Db)
    requires forall k :: k in all <==> k in a || k in b
    requires forall k <- a :: all[k] == a[k]
    requires forall k <- b :: all[k] == b[k]
    ensures a + b == all
  {
    MergeParts(map[], a, b, all);
    assert map[] + a == a && map[] + all == all;
  }

  // ---- One command ----

  lemma EntryIsStored(T: Table, q: Query, h: int)
    requires h in T && Matches(T, q, h)
    ensures StoredAs(EntryFor(T, q, h)) == Ok(FoundAs(T, q, h))
  {
    Btp2UuidIsHex(EntryFor(T, q, h).uuid);
  }

  lemma FoundAmongStep(T: Table, q: Query, ks: seq<int>, m: Db)
    requires ks != [] && ks[0] in T
    ensures var h, rest := ks[0], FoundAmong(T, q, ks[1..]);
            m + FoundAmong(T, q, ks) == (if Matches(T, q, h) then m[h := FoundAs(T, q, h)] else m) + rest
  {
    var h, rest, all := ks[0], FoundAmong(T, q, ks[1..]), FoundAmong(T, q, ks);
    assert forall k :: k in ks <==> k == h || k in ks[1..];
    if Matches(T, q, h) {
      AddOneThenRest(m, h, FoundAs(T, q, h), rest, all);
    } else {
      assert rest == all;
    }
  }

  lemma {:induction false} StoreAnswer(T: Table, q: Query, ks: seq<int>, m: Db)
    requires forall i | 0 <= i < |ks| :: ks[i] in T
    ensures StoreAll(m, AnswerFrom(T, q, ks)) ==
            Outcome(m + FoundAmong(T, q, ks), None)
    decreases |ks|
  {
    var all := FoundAmong(T, q, ks);
    if ks == [] {
      assert m + all == m;
    } else {
      var h := ks[0];
      FoundAmongStep(T, q, ks, m);
      if Matches(T, q, h) {
        EntryIsStored(T, q, h);
        StoreAnswer(T, q, ks[1..], m[h := FoundAs(T, q, h)]);
      } else {
        StoreAnswer(T, q, ks[1..], m);
      }
    }
  }

  lemma FoundAmongAll(T: Table, q: Query)
    ensures FoundAmong(T, q, Sorted(T.Keys)) == Found(T, q)
  {
  }

  /** A command that can be sent and answered adds exactly what the query asks for. */
  lemma FetchFinds(T: Table, q: Query, m: Db)
    ensures Fetch(T, q, m) ==
            if !q.Packable() then Outcome(m, Some(StructError))
            else if !HasRoom(T, q) then Outcome(m, Some(InvalidStatus))
            else Outcome(m + Found(T, q), None)
  {
    if q.Packable() && HasRoom(T, q) {
      DiscRspRoundTrip(q.KindOf(), Answer(T, q));
      StoreAnswer(T, q, Sorted(T.Keys), m);
      FoundAmongAll(T, q);
    }
  }

  // ---- The services ----

  /** A declaration inside one of the services. */
  predicate Covered(T: Table, svcs: seq<DbAttr>, h: int)
    requires h in T
  {
    && (T[h].Included? || T[h].Chrc?)
    && exists i | 0 <= i < |svcs| :: HasEnd(svcs[i]) && svcs[i].handle <= h <= EndOf(svcs[i])
  }

  /** The service's range can be asked for, and the answers fit. */
  predicate Answerable(T: Table, svc: DbAttr) {
    HasEnd(svc) &&
    var s, e := svc.handle, EndOf(svc);
    FindIncluded(s, e).Packable() && HasRoom(T, FindIncluded(s, e)) && HasRoom(T, AllChrc(s, e))
  }

  function Declarations(T: Table, svcs: seq<DbAttr>): Db {
    map h | h in T && Covered(T, svcs, h) :: ClientView(T, h)
  }

  lemma DeclarationsOfOne(T: Table, svc: DbAttr)
    requires HasEnd(svc)
    ensures var s, e := svc.handle, EndOf(svc);
            var incl, chr, all := Found(T, FindIncluded(s, e)), Found(T, AllChrc(s, e)), Declarations(T, [svc]);
            && (forall h :: h in all <==> h in incl || h in chr)
            && (forall h <- incl :: all[h] == incl[h]) && (forall h <- chr :: all[h] == chr[h])
  {
    forall h <- T
      ensures Covered(T, [svc], h) <==> (T[h].Included? || T[h].Chrc?) && svc.handle <= h <= EndOf(svc)
    {
      assert [svc][0] == svc;
    }
  }

  lemma ServiceFound(T: Table, svc: DbAttr, m: Db)
    requires Answerable(T, svc)
    ensures DiscoverService(T, svc, m) == Outcome(m + Declarations(T, [svc]), None)
  {
    var s, e := svc.handle, EndOf(svc);
    var incl, chr := Found(T, FindIncluded(s, e)), Found(T, AllChrc(s, e));
    FetchFinds(T, FindIncluded(s, e), m);
    FetchFinds(T, AllChrc(s, e), m + incl);
    DeclarationsOfOne(T, svc);
    MergeParts(m, incl, chr, Declarations(T, [svc]));
  }

  lemma {:induction false} ServicesFound(T: Table, svcs: seq<DbAttr>, m: Db)
    requires forall i | 0 <= i < |svcs| :: Answerable(T, svcs[i])
    ensures ForEach(ServiceStep(T), svcs, m) == Outcome(m + Declarations(T, svcs), None)
    decreases |svcs|
  {
    if svcs == [] {
      assert m + Declarations(T, svcs) == m;
    } else {
      var first, rest := Declarations(T, [svcs[0]]), Declarations(T, svcs[1..]);
      ServiceFound(T, svcs[0], m);
      ServicesFound(T, svcs[1..], m + first);
      forall h | h in T ensures Covered(T, svcs, h) <==> h in first || h in rest {
        CoveredByOne(T, svcs, h);
      }
      MergeParts(m, first, rest, Declarations(T, svcs));
    }
  }

  lemma CoveredByOne(T: Table, svcs: seq<DbAttr>, h: int)
    requires h in T && svcs != []
    ensures Covered(T, svcs, h) <==> Covered(T, [svcs[0]], h) || Covered(T, svcs[1..], h)
  {
    assert [svcs[0]][0] == svcs[0];
    if Covered(T, svcs, h) {
      var i :| 0 <= i < |svcs| && HasEnd(svcs[i]) && svcs[i].handle <= h <= EndOf(svcs[i]);
      if i > 0 {
        assert svcs[1..][i - 1] == svcs[i];
      }
    }
    if Covered(T, svcs[1..], h) {
      var i :| 0 <= i < |svcs[1..]| && HasEnd(svcs[1..][i]) && svcs[1..][i].handle <= h <= EndOf(svcs[1..][i]);
      assert svcs[i + 1] == svcs[1..][i];
    }
  }

  // ---- The descriptors ----

  /** What may be in the database beforehand: part of what discovery would find. */
  ghost predicate PartOf(m: Db, T: Table) {
    forall h <- m :: h in T && !T[h].Value? && m[h] == ClientView(T, h)
  }

  /** Descriptor d is fetched for a characteristic below b whose first descriptor was not stored beforehand. */
  predicate Reached(T: Table, m0: Db, b: int, d: int) {
    exists c <- T | Owns(T, c, d) :: c < b && c + 2 !in m0
  }

  /** The database once the characteristics below b are done. */
  function Partial(T: Table, m0: Db, b: int): Db {
    map h | h in T && !T[h].Value? && (T[h].Desc? ==> h in m0 || Reached(T, m0, b, h)) :: ClientView(T, h)
  }

  lemma NoCharacteristicInside(T: Table, c: int, d: int, c': int)
    requires WellFormed(T) && Owns(T, c, d) && c' in T && T[c'].Chrc?
    ensures c' <= c || d < c'
  {
    assert PlacedRight(T, c);
  }

  lemma OwnerUnique(T: Table, c: int, c': int, d: int)
    requires WellFormed(T) && Owns(T, c, d) && Owns(T, c', d)
    ensures c == c'
  {
    NoCharacteristicInside(T, c, d, c');
    NoCharacteristicInside(T, c', d, c);
  }

  /** The search for characteristic c's end stops at once if something is stored two handles on. */
  predicate NextIsKnown(T: Table, m0: Db, c: int) {
    c + 2 in T && (T[c + 2].Desc? ==> c + 2 in m0)
  }

  lemma NoneReachedYet(T: Table, m0: Db, c: int)
    requires WellFormed(T) && c in T && T[c].Chrc?
    ensures !Reached(T, m0, c, c + 2)
  {
    forall c' <- T | Owns(T, c', c + 2) ensures c <= c' {
      NoCharacteristicInside(T, c', c + 2, c);
    }
  }

  lemma NextInPartial(T: Table, m0: Db, c: int)
    requires WellFormed(T) && PartOf(m0, T) && c in T && T[c].Chrc?
    ensures var m := Partial(T, m0, c);
            && c in m && m[c].GattCharacteristic? && c + 1 !in m
            && (c + 2 in m <==> NextIsKnown(T, m0, c))
  {
    assert PlacedRight(T, c);
    if c + 2 in T {
      assert PlacedRight(T, c + 2);
      NoneReachedYet(T, m0, c);
    }
  }

  /** Up to the next declaration that is stored, only c's own descriptors lie behind its value. */
  lemma OnlyOwnDescriptors(T: Table, c: int, e: int)
    requires WellFormed(T) && c in T && T[c].Chrc?
    requires forall h <- T | c < h <= e :: T[h].Desc? || T[h].Value?
    requires e >= MAX_HANDLE || (e > c && e + 1 in T && !T[e + 1].Desc?)
    ensures forall h <- T :: c + 2 <= h <= e <==> Owns(T, c, h)
  {
    assert PlacedRight(T, c);
    forall h <- T | c + 2 <= h <= e ensures T[h].Desc? {
      assert PlacedRight(T, h);
    }
    forall h | Owns(T, c, h) ensures c + 2 <= h <= e {
      assert InRange(h) && h != c + 1;
      assert e < MAX_HANDLE && e + 1 <= h ==> e + 1 == h || !(c + 1 < e + 1 < h);
    }
  }

  /** What the search for an end finds in the database with the characteristics below c done. */
  lemma EndInPartial(T: Table, m0: Db, c: int)
    requires WellFormed(T) && PartOf(m0, T) && c in T && T[c].Chrc?
    ensures var end := CharacteristicEnd(Partial(T, m0, c), c);
            && (NextIsKnown(T, m0, c) ==> end == Ok(None))
            && (!NextIsKnown(T, m0, c) ==>
                  && end.Ok? && end.value.Some? && end.value.value <= MAX_HANDLE
                  && forall h <- T :: c + 2 <= h <= end.value.value <==> Owns(T, c, h))
  {
    var m := Partial(T, m0, c);
    NextInPartial(T, m0, c);
    if !NextIsKnown(T, m0, c) {
      var later := NonDescriptorsAfter(m, c);
      var e := CharacteristicEnd(m, c).value.value;
      forall h <- T | c < h <= e ensures T[h].Desc? || T[h].Value? {
        assert h in later <==> !T[h].Desc? && !T[h].Value?;
      }
      OnlyOwnDescriptors(T, c, e);
    }
  }

  /** Room in every response: the one hypothesis about the device. */
  ghost predicate Roomy(T: Table) {
    && HasRoom(T, AllPrimary)
    && (forall s <- T | T[s].Primary? ::
          HasRoom(T, FindIncluded(s, T[s].end as int)) && HasRoom(T, AllChrc(s, T[s].end as int)))
    && (forall c <- T, e {:trigger AllDesc(c + 2, e)} |
          T[c].Chrc? && (forall h <- T :: c + 2 <= h <= e <==> Owns(T, c, h)) :: HasRoom(T, AllDesc(c + 2, e)))
  }

  /** chars lists the characteristics from b on, in order. */
  ghost predicate CharsFrom(T: Table, chars: seq<DbAttr>, b: int) {
    && (forall i | 0 <= i < |chars| ::
          var c := chars[i].handle; c in T && T[c].Chrc? && c >= b && chars[i] == ClientView(T, c))
    && (forall c <- T | T[c].Chrc? && c >= b :: exists i :: 0 <= i < |chars| && chars[i].handle == c)
    && (forall i, j | 0 <= i < j < |chars| :: chars[i].handle < chars[j].handle)
  }

  /** A characteristic has nothing left to fetch: the next known entry follows at once. */
  lemma NothingToFetch(T: Table, m0: Db, c: int)
    requires WellFormed(T) && PartOf(m0, T) && c in T && T[c].Chrc? && NextIsKnown(T, m0, c)
    ensures forall d :: Owns(T, c, d) ==> c + 2 in m0
  {
    assert PlacedRight(T, c);
    forall d | Owns(T, c, d) ensures c + 2 in m0 {
      assert d != c + 1;
      assert PlacedRight(T, c + 2);
    }
  }

  /** Going on from b to behind characteristic c, with no other characteristic in between. */
  lemma ReachedStep(T: Table, m0: Db, b: int, c: int, d: int)
    requires WellFormed(T) && c in T && T[c].Chrc? && b <= c
    requires forall k <- T | b <= k < c :: !T[k].Chrc?
    ensures Reached(T, m0, c + 1, d) <==> Reached(T, m0, b, d) || (Owns(T, c, d) && c + 2 !in m0)
    ensures Reached(T, m0, c, d) <==> Reached(T, m0, b, d)
  {
    forall c' <- T | Owns(T, c', d) && c' < c + 1
      ensures c' < b || c' == c
    {
      assert T[c'].Chrc?;
    }
  }

  lemma PartialSkip(T: Table, m0: Db, b: int, c: int)
    requires WellFormed(T) && c in T && T[c].Chrc? && b <= c
    requires forall k <- T | b <= k < c :: !T[k].Chrc?
    ensures Partial(T, m0, b) == Partial(T, m0, c)
    ensures (forall d :: Owns(T, c, d) ==> c + 2 in m0) ==> Partial(T, m0, c + 1) == Partial(T, m0, c)
  {
    forall d ensures (Reached(T, m0, c + 1, d) <==> Reached(T, m0, b, d) || (Owns(T, c, d) && c + 2 !in m0))
                     && (Reached(T, m0, c, d) <==> Reached(T, m0, b, d))
    {
      ReachedStep(T, m0, b, c, d);
    }
  }

  /** A search in a range that holds only c's descriptors finds them. */
  lemma FoundDescriptors(T: Table, c: int, q: Query)
    requires q.AllDesc? && forall h <- T :: q.start <= h <= q.end <==> Owns(T, c, h)
    ensures forall d :: d in Found(T, q) <==> Owns(T, c, d)
    ensures forall d <- Found(T, q) :: d in T && Found(T, q)[d] == ClientView(T, d)
  {
    forall d <- Found(T, q) ensures Found(T, q)[d] == ClientView(T, d) {
      assert Owns(T, c, d);
    }
  }

  lemma PartialFetch(T: Table, m0: Db, c: int, found: Db)
    requires WellFormed(T) && PartOf(m0, T) && c in T && T[c].Chrc? && c + 2 !in m0
    requires forall d :: d in found <==> Owns(T, c, d)
    requires forall d <- found :: d in T && found[d] == ClientView(T, d)
    ensures Partial(T, m0, c) + found == Partial(T, m0, c + 1)
  {
    var m, m' := Partial(T, m0, c), Partial(T, m0, c + 1);
    forall d ensures d in m' <==> d in m || d in found {
      ReachedStep(T, m0, c, c, d);
    }
    SumOfParts(m, found, m');
  }

  /** One round of the loop over the characteristics, when there is nothing to ask for. */
  lemma RoundWithoutFetch(T: Table, m0: Db, c: int, skipEmpty: bool)
    requires WellFormed(T) && PartOf(m0, T) && c in T && T[c].Chrc?
    requires NextIsKnown(T, m0, c)
    ensures DiscoverDescriptorsOf(T, ClientView(T, c), Partial(T, m0, c), skipEmpty) ==
            Outcome(Partial(T, m0, c + 1), if skipEmpty then None else Some(AssertionError))
  {
    EndInPartial(T, m0, c);
    NothingToFetch(T, m0, c);
    PartialSkip(T, m0, c, c);
  }

  /** One round when there is a range, which is out of reach behind the last handle. */
  lemma RoundWithFetch(T: Table, m0: Db, c: int, skipEmpty: bool)
    requires WellFormed(T) && Roomy(T) && PartOf(m0, T) && c in T && T[c].Chrc?
    requires !NextIsKnown(T, m0, c)
    ensures DiscoverDescriptorsOf(T, ClientView(T, c), Partial(T, m0, c), skipEmpty) ==
            Outcome(Partial(T, m0, c + 1), if c + 1 == MAX_HANDLE then Some(StructError) else None)
  {
    var m := Partial(T, m0, c);
    ValueBehind(T, m0, c);
    EndInPartial(T, m0, c);
    NextInPartial(T, m0, c);
    EndNotNegative(m, c);
    var e := CharacteristicEnd(m, c).value.value;
    RangeAsked(T, GattCharacteristic(c, 1, UuidText(T[c].uuid), 0, T[c].props, c + 1), m, e, skipEmpty);
    RangeFetched(T, m0, c, e);
  }

  lemma ValueBehind(T: Table, m0: Db, c: int)
    requires WellFormed(T) && PartOf(m0, T) && c in T && T[c].Chrc? && !NextIsKnown(T, m0, c)
    ensures ClientView(T, c) == GattCharacteristic(c, 1, UuidText(T[c].uuid), 0, T[c].props, c + 1)
    ensures 0 < c && c + 1 <= MAX_HANDLE && c + 2 !in m0
  {
    assert PlacedRight(T, c);
    assert InRange(c) && InRange(c + 1);
    assert c + 2 in m0 ==> c + 2 in T;
  }

  lemma RangeAsked(T: Table, c: DbAttr, m: Db, e: int, skipEmpty: bool)
    requires c.GattCharacteristic? && CharacteristicEnd(m, c.handle) == Ok(Some(e))
    ensures DiscoverDescriptorsOf(T, c, m, skipEmpty) == Fetch(T, AllDesc(c.valueHandle + 1, e), m)
  {
  }

  lemma RangeFetched(T: Table, m0: Db, c: int, e: int)
    requires WellFormed(T) && Roomy(T) && PartOf(m0, T) && c in T && T[c].Chrc?
    requires c + 2 !in m0 && 0 <= c && c + 1 <= MAX_HANDLE && 0 <= e <= MAX_HANDLE
    requires forall h <- T :: c + 2 <= h <= e <==> Owns(T, c, h)
    ensures Fetch(T, AllDesc(c + 2, e), Partial(T, m0, c)) ==
            Outcome(Partial(T, m0, c + 1), if c + 1 == MAX_HANDLE then Some(StructError) else None)
  {
    var q := AllDesc(c + 2, e);
    FetchFinds(T, q, Partial(T, m0, c));
    FoundDescriptors(T, c, q);
    PartialFetch(T, m0, c, Found(T, q));
    if c + 1 == MAX_HANDLE {
      NothingBehindLast(T, c, Found(T, q));
      assert Partial(T, m0, c) + map[] == Partial(T, m0, c);
    }
  }

  lemma NothingBehindLast(T: Table, c: int, found: Db)
    requires WellFormed(T) && c in T && T[c].Chrc? && c + 1 == MAX_HANDLE
    requires forall d :: d in found <==> Owns(T, c, d)
    ensures found == map[]
  {
    assert PlacedRight(T, c);
    forall d ensures d !in found {
      assert d in T ==> InRange(d);
    }
    assert found.Keys == {};
  }

  lemma EndNotNegative(m: Db, c: int)
    requires c in m && m[c].GattCharacteristic? && c >= 0
    ensures CharacteristicEnd(m, c).Ok?
    ensures CharacteristicEnd(m, c).value.Some? ==> CharacteristicEnd(m, c).value.value >= 0
  {
  }

  /** Behind every handle. */
  const DONE := MAX_HANDLE + 1

  /** A characteristic whose value has the last handle: there is no handle at which to start looking. */
  predicate ValueIsLast(T: Table) {
    MAX_HANDLE - 1 in T && T[MAX_HANDLE - 1].Chrc?
  }

  lemma CharsFromTail(T: Table, chars: seq<DbAttr>, b: int)
    requires CharsFrom(T, chars, b) && chars != []
    ensures var c := chars[0].handle;
            && c in T && T[c].Chrc? && b <= c && chars[0] == ClientView(T, c)
            && (forall k <- T | b <= k < c :: !T[k].Chrc?)
            && CharsFrom(T, chars[1..], c + 1)
  {
    var c, rest := chars[0].handle, chars[1..];
    forall k <- T | T[k].Chrc? && k >= b
      ensures k >= c && (k >= c + 1 ==> exists i :: 0 <= i < |rest| && rest[i].handle == k)
    {
      var i :| 0 <= i < |chars| && chars[i].handle == k;
      if i > 0 {
        assert rest[i - 1].handle == k;
      }
    }
    forall i | 0 <= i < |rest|
      ensures var k := rest[i].handle; k in T && T[k].Chrc? && k >= c + 1 && rest[i] == ClientView(T, k)
    {
      assert rest[i] == chars[i + 1] && chars[0].handle < chars[i + 1].handle;
    }
  }

  lemma PartialDone(T: Table, m0: Db, b: int)
    requires WellFormed(T) && forall k <- T :: T[k].Chrc? ==> k < b
    ensures Partial(T, m0, b) == Partial(T, m0, DONE)
  {
    forall d ensures Reached(T, m0, b, d) <==> Reached(T, m0, DONE, d) {
      forall c <- T | Owns(T, c, d) ensures c < b && c < DONE {
        assert InRange(c);
      }
    }
  }

  /** The exception that the round of characteristic c ends with. */
  function RoundError(T: Table, m0: Db, c: int, skipEmpty: bool): Option<Error> {
    if NextIsKnown(T, m0, c) then (if skipEmpty then None else Some(AssertionError))
    else if c + 1 == MAX_HANDLE then Some(StructError)
    else None
  }

  /** The round of the first of the remaining characteristics. */
  lemma Round(T: Table, m0: Db, chars: seq<DbAttr>, b: int, skipEmpty: bool)
    requires WellFormed(T) && Roomy(T) && PartOf(m0, T)
    requires CharsFrom(T, chars, b) && chars != []
    ensures var c := chars[0].handle;
            && c in T && T[c].Chrc? && b <= c && (forall k <- T | b <= k < c :: !T[k].Chrc?)
            && CharsFrom(T, chars[1..], c + 1)
            && DescriptorStep(T, skipEmpty)(chars[0], Partial(T, m0, b)) ==
               Outcome(Partial(T, m0, c + 1), RoundError(T, m0, c, skipEmpty))
  {
    var c := chars[0].handle;
    CharsFromTail(T, chars, b);
    PartialSkip(T, m0, b, c);
    if NextIsKnown(T, m0, c) {
      RoundWithoutFetch(T, m0, c, skipEmpty);
    } else {
      RoundWithFetch(T, m0, c, skipEmpty);
    }
  }

  /** Where the loop gets to, and the exception that ends it. */
  function LoopResult(T: Table, m0: Db, chars: seq<DbAttr>, skipEmpty: bool): (int, Option<Error>) {
    if chars == [] then (DONE, None)
    else
      var c := chars[0].handle;
      var err := RoundError(T, m0, c, skipEmpty);
      if err.Some? then (c + 1, err) else LoopResult(T, m0, chars[1..], skipEmpty)
  }

  lemma ForEachRound(step: Step, items: seq<DbAttr>, m: Db, o: Outcome)
    requires items != [] && step(items[0], m) == o
    ensures ForEach(step, items, m) == if o.err.Some? then o else ForEach(step, items[1..], o.db)
  {
  }

  lemma {:induction false} DescriptorLoop(T: Table, m0: Db, chars: seq<DbAttr>, b: int, skipEmpty: bool)
    requires WellFormed(T) && Roomy(T) && PartOf(m0, T)
    requires CharsFrom(T, chars, b)
    ensures var (end, err) := LoopResult(T, m0, chars, skipEmpty);
            ForEach(DescriptorStep(T, skipEmpty), chars, Partial(T, m0, b)) == Outcome(Partial(T, m0, end), err)
    decreases |chars|
  {
    if chars == [] {
      PartialDone(T, m0, b);
    } else {
      var c, step := chars[0].handle, DescriptorStep(T, skipEmpty);
      Round(T, m0, chars, b, skipEmpty);
      ForEachRound(step, chars, Partial(T, m0, b), Outcome(Partial(T, m0, c + 1), RoundError(T, m0, c, skipEmpty)));
      DescriptorLoop(T, m0, chars[1..], c + 1, skipEmpty);
    }
  }

  /** Passing over the characteristics without an end, only a value at the last handle is in the way. */
  lemma {:induction false} SkippingLoop(T: Table, m0: Db, chars: seq<DbAttr>, b: int)
    requires WellFormed(T) && CharsFrom(T, chars, b)
    ensures LoopResult(T, m0, chars, true) ==
            if b < MAX_HANDLE && ValueIsLast(T) then (MAX_HANDLE, Some(StructError)) else (DONE, None)
    decreases |chars|
  {
    if chars != [] {
      var c := chars[0].handle;
      CharsFromTail(T, chars, b);
      BelowLast(T, c);
      SkippingLoop(T, m0, chars[1..], c + 1);
      assert c + 2 in T ==> InRange(c + 2);
    }
  }

  /** No characteristic from b on stops the loop that asserts an end. */
  ghost predicate NoneStops(T: Table, m0: Db, b: int) {
    forall c <- T | T[c].Chrc? && c >= b :: !NextIsKnown(T, m0, c) && c + 1 != MAX_HANDLE
  }

  lemma {:induction false} AssertingLoop(T: Table, m0: Db, chars: seq<DbAttr>, b: int)
    requires WellFormed(T) && CharsFrom(T, chars, b)
    ensures LoopResult(T, m0, chars, false).1.None? <==> NoneStops(T, m0, b)
    ensures LoopResult(T, m0, chars, false).1.None? ==> LoopResult(T, m0, chars, false).0 == DONE
    decreases |chars|
  {
    if chars != [] {
      CharsFromTail(T, chars, b);
      AssertingLoop(T, m0, chars[1..], chars[0].handle + 1);
    }
  }

  /** The characteristic at which the loop that asserts an end stops. */
  ghost predicate StopsAt(T: Table, m0: Db, b: int, c: int) {
    && c in T && T[c].Chrc? && c >= b && RoundError(T, m0, c, false).Some?
    && forall k <- T | T[k].Chrc? && b <= k < c :: RoundError(T, m0, k, false).None?
  }

  lemma {:induction false} AssertingLoopStops(T: Table, m0: Db, chars: seq<DbAttr>, b: int, c: int)
    requires WellFormed(T) && CharsFrom(T, chars, b) && StopsAt(T, m0, b, c)
    ensures LoopResult(T, m0, chars, false) == (c + 1, RoundError(T, m0, c, false))
    decreases |chars|
  {
    var i :| 0 <= i < |chars| && chars[i].handle == c;
    var first := chars[0].handle;
    CharsFromTail(T, chars, b);
    if first < c {
      AssertingLoopStops(T, m0, chars[1..], first + 1, c);
    }
  }

  lemma BelowLast(T: Table, c: int)
    requires WellFormed(T) && c in T && T[c].Chrc?
    ensures c + 1 <= MAX_HANDLE
  {
    assert PlacedRight(T, c);
    assert InRange(c + 1);
  }

  lemma LastCharacteristic(T: Table, m0: Db)
    requires WellFormed(T) && ValueIsLast(T)
    ensures Partial(T, m0, MAX_HANDLE) == Partial(T, m0, DONE)
  {
    assert PlacedRight(T, MAX_HANDLE - 1);
    forall k <- T | T[k].Chrc? ensures k < MAX_HANDLE {
      assert InRange(k);
    }
    PartialDone(T, m0, MAX_HANDLE);
  }

  // ---- The whole procedure ----

  lemma ViewsAreKeyed(T: Table, m: Db)
    requires PartOf(m, T)
    ensures Keyed(m)
  {
  }

  lemma PrimariesAdded(T: Table, m0: Db)
    requires PartOf(m0, T)
    ensures PartOf(m0 + Found(T, AllPrimary), T)
  {
  }

  /** The services of a partial database that has all the primary ones. */
  lemma ServicesOfPart(T: Table, m: Db)
    requires OnlyPrimary(T) && PartOf(m, T) && forall s <- T | T[s].Primary? :: s in m
    ensures forall svc <- Services(m) :: svc.handle in T && T[svc.handle].Primary? && svc == ClientView(T, svc.handle)
    ensures forall s <- T | T[s].Primary? :: ClientView(T, s) in Services(m)
  {
    ViewsAreKeyed(T, m);
    InstancesExact(m, ServiceClass);
    forall svc <- Services(m)
      ensures svc.handle in T && T[svc.handle].Primary? && svc == ClientView(T, svc.handle)
    {
      assert m[svc.handle] == svc && svc.IsA(ServiceClass);
    }
    forall s <- T | T[s].Primary? ensures ClientView(T, s) in Services(m) {
      assert m[s] == ClientView(T, s);
    }
  }

  lemma PrimaryAnswerable(T: Table, s: int)
    requires Roomy(T) && s in T && T[s].Primary?
    ensures Answerable(T, ClientView(T, s))
  {
    assert InRange(s);
  }

  /** Every include and characteristic lies in the range of a primary service. */
  lemma DeclarationsCovered(T: Table, m: Db)
    requires WellFormed(T) && OnlyPrimary(T) && PartOf(m, T) && forall s <- T | T[s].Primary? :: s in m
    ensures forall h <- T :: Covered(T, Services(m), h) <==> T[h].Included? || T[h].Chrc?
  {
    ServicesOfPart(T, m);
    var svcs := Services(m);
    forall h <- T | T[h].Included? || T[h].Chrc? ensures Covered(T, svcs, h) {
      assert PlacedRight(T, h);
      var s :| Spans(T, s, h);
      assert ClientView(T, s) in svcs;
      var i :| 0 <= i < |svcs| && svcs[i] == ClientView(T, s);
      assert HasEnd(svcs[i]) && svcs[i].handle <= h <= EndOf(svcs[i]);
    }
  }

  lemma ServicesStored(T: Table, m0: Db)
    requires WellFormed(T) && OnlyPrimary(T) && Roomy(T) && PartOf(m0, T)
    ensures var m := m0 + Found(T, AllPrimary);
            ForEach(ServiceStep(T), Services(m), m) == Outcome(Partial(T, m0, 0), None)
  {
    var m := m0 + Found(T, AllPrimary);
    var svcs := Services(m);
    PrimariesAdded(T, m0);
    ServicesOfPart(T, m);
    forall i | 0 <= i < |svcs| ensures Answerable(T, svcs[i]) {
      assert svcs[i] in svcs;
      PrimaryAnswerable(T, svcs[i].handle);
    }
    ServicesFound(T, svcs, m);
    DeclarationsCovered(T, m);
    NothingBelowZero(T, m0);
    BeforeDescriptorsStored(T, m0, m, Declarations(T, svcs));
  }

  lemma BeforeDescriptorsStored(T: Table, m0: Db, m: Db, decls: Db)
    requires PartOf(m0, T) && OnlyPrimary(T) && m == m0 + Found(T, AllPrimary)
    requires forall h :: h in decls <==> h in T && (T[h].Included? || T[h].Chrc?)
    requires forall h <- decls :: h in T && decls[h] == ClientView(T, h)
    requires forall d :: !Reached(T, m0, 0, d)
    ensures m + decls == Partial(T, m0, 0)
  {
    PrimariesAdded(T, m0);
    SumOfParts(m, decls, Partial(T, m0, 0));
  }

  lemma NothingBelowZero(T: Table, m0: Db)
    requires WellFormed(T)
    ensures forall d :: !Reached(T, m0, 0, d)
  {
    assert forall c <- T :: InRange(c);
  }

  lemma CharacteristicsOfPart(T: Table, m: Db)
    requires PartOf(m, T)
    ensures forall a <- Characteristics(m) ::
              a.handle in T && T[a.handle].Chrc? && a.handle >= 0 && a == ClientView(T, a.handle)
    ensures forall c <- m | T[c].Chrc? :: ClientView(T, c) in Characteristics(m)
  {
    ViewsAreKeyed(T, m);
    InstancesExact(m, CharacteristicClass);
    forall a <- Characteristics(m)
      ensures a.handle in T && T[a.handle].Chrc? && a.handle >= 0 && a == ClientView(T, a.handle)
    {
      CharacteristicView(T, a.handle);
    }
    forall c <- m | T[c].Chrc? ensures ClientView(T, c) in Characteristics(m) {
      CharacteristicView(T, c);
    }
  }

  lemma CharacteristicView(T: Table, h: int)
    requires h in T
    ensures ClientView(T, h).IsA(CharacteristicClass) <==> T[h].Chrc?
    ensures ClientView(T, h).handle == h && h >= 0
  {
    assert InRange(h);
  }

  lemma ListedOnce(T: Table, chars: seq<DbAttr>)
    requires forall a <- chars :: a.handle in T && T[a.handle].Chrc? && a.handle >= 0 && a == ClientView(T, a.handle)
    requires forall c <- T | T[c].Chrc? :: ClientView(T, c) in chars
    requires forall i, j | 0 <= i < j < |chars| :: chars[i].handle < chars[j].handle
    ensures CharsFrom(T, chars, 0)
  {
    assert forall i | 0 <= i < |chars| :: chars[i] in chars;
    forall c <- T | T[c].Chrc? && c >= 0 ensures exists i :: 0 <= i < |chars| && chars[i].handle == c {
      var i :| 0 <= i < |chars| && chars[i] == ClientView(T, c);
      assert chars[i].handle == c;
    }
  }

  lemma CharacteristicsStored(T: Table, m0: Db)
    requires WellFormed(T) && PartOf(m0, T)
    ensures CharsFrom(T, Characteristics(Partial(T, m0, 0)), 0)
  {
    var m := Partial(T, m0, 0);
    var chars := Characteristics(m);
    CharacteristicsOfPart(T, m);
    ViewsAreKeyed(T, m);
    InstancesExact(m, CharacteristicClass);
    ListedOnce(T, chars);
  }

  /**
   Full discovery of a table of primary services, from any part of what it would find. What is missing
   afterwards are descriptors of characteristics whose first one was known and whose others were not. A value
   at the last handle makes the last query fail to pack. With the assertion, the first characteristic that
   has no end (or the last handle) ends the procedure, with what the earlier ones left.
   */
  lemma FullDiscovery(T: Table, m0: Db)
    requires WellFormed(T) && OnlyPrimary(T) && Roomy(T) && PartOf(m0, T)
    ensures DiscoverFull(T, m0, true) ==
            Outcome(Partial(T, m0, DONE), if ValueIsLast(T) then Some(StructError) else None)
    ensures DiscoverFull(T, m0, false).err.None? <==>
            !ValueIsLast(T) && forall c <- T | T[c].Chrc? :: !NextIsKnown(T, m0, c)
    ensures DiscoverFull(T, m0, false).err.None? ==> DiscoverFull(T, m0, false).db == Partial(T, m0, DONE)
    ensures forall c | StopsAt(T, m0, 0, c) ::
              DiscoverFull(T, m0, false) == Outcome(Partial(T, m0, c + 1), RoundError(T, m0, c, false))
  {
    FetchFinds(T, AllPrimary, m0);
    ServicesStored(T, m0);
    CharacteristicsStored(T, m0);
    var chars := Characteristics(Partial(T, m0, 0));
    DescriptorLoop(T, m0, chars, 0, true);
    DescriptorLoop(T, m0, chars, 0, false);
    SkippingLoop(T, m0, chars, 0);
    AssertingLoop(T, m0, chars, 0);
    forall c | StopsAt(T, m0, 0, c)
      ensures LoopResult(T, m0, chars, false) == (c + 1, RoundError(T, m0, c, false))
    {
      AssertingLoopStops(T, m0, chars, 0, c);
    }
    if ValueIsLast(T) {
      LastCharacteristic(T, m0);
    }
    assert forall c <- T :: InRange(c);
  }

  lemma DiscoveredDb(T: Table, m0: Db)
    requires WellFormed(T) && OnlyPrimary(T) && Roomy(T) && PartOf(m0, T)
    ensures DiscoverFull(T, m0, true).db == Partial(T, m0, DONE)
  {
    FullDiscovery(T, m0);
  }

  /** Where the first descriptor of a characteristic was known, all of its siblings were. */
  ghost predicate SiblingsKnown(T: Table, m0: Db) {
    forall c, d | Owns(T, c, d) && c + 2 in m0 :: d in m0
  }

  lemma ReachedOrKnown(T: Table, m0: Db, d: int)
    requires WellFormed(T) && SiblingsKnown(T, m0) && d in T && T[d].Desc?
    ensures d in m0 || Reached(T, m0, DONE, d)
  {
    assert PlacedRight(T, d);
    var c :| Owns(T, c, d);
    assert InRange(c);
  }

  lemma NotReachedIsKnown(T: Table, m0: Db, c: int, d: int)
    requires WellFormed(T) && Owns(T, c, d) && c + 2 in m0
    ensures !Reached(T, m0, DONE, d)
  {
    forall c' <- T | Owns(T, c', d) ensures c' == c {
      OwnerUnique(T, c, c', d);
    }
  }

  /** That is everything if and only if the siblings of every known first descriptor were known. */
  lemma PartialIsExpected(T: Table, m0: Db)
    requires WellFormed(T) && PartOf(m0, T)
    ensures Partial(T, m0, DONE) == Expected(T) <==> SiblingsKnown(T, m0)
  {
    if SiblingsKnown(T, m0) {
      forall d <- T | T[d].Desc? ensures d in m0 || Reached(T, m0, DONE, d) {
        ReachedOrKnown(T, m0, d);
      }
      assert Partial(T, m0, DONE) == Expected(T);
    } else {
      var c, d :| Owns(T, c, d) && c + 2 in m0 && d !in m0;
      NotReachedIsKnown(T, m0, c, d);
      assert d in Expected(T) && d !in Partial(T, m0, DONE);
    }
  }

  lemma NothingHidden(T: Table)
    requires WellFormed(T)
    ensures Partial(T, map[], DONE) == Expected(T)
  {
    PartialIsExpected(T, map[]);
  }

  /** How the procedure that passes over missing ends comes to its own end. */
  function Ending(T: Table): Option<Error> {
    if ValueIsLast(T) then Some(StructError) else None
  }

  /**
   From an empty database discovery is exact: the table without its characteristic values, with the
   table's handles and the text of its UUIDs.
   */
  lemma DiscoveryIsExact(T: Table)
    requires WellFormed(T) && OnlyPrimary(T) && Roomy(T)
    ensures DiscoverFull(T, map[], true) == Outcome(Expected(T), Ending(T))
  {
    FullDiscovery(T, map[]);
    NothingHidden(T);
  }

  /**
   The same over the link: whatever the cut of the stream, with timeouts between frames, and whatever handled
   events arrive among the responses, the database object ends up with exactly the table.
   */
  method DiscoverOverLink(arrive: Arrivals, handler: Workers.Handler, ghost T: Table)
      returns (db: GattDB, err: Option<Error>)
    requires Serves(T, arrive) && HandlesAll(handler)
    requires WellFormed(T) && OnlyPrimary(T) && Roomy(T)
    ensures fresh(db) && db.db == Expected(T) && err == Ending(T)
  {
    db := new GattDB();
    var host := new Host(arrive, handler, T);
    DiscoveryIsExact(T);
    err := GattcDiscFull(host, T, db, true);
    host.worker.Close();
  }

  /** Discovering again changes nothing. */
  lemma DiscoveryIsIdempotent(T: Table)
    requires WellFormed(T) && OnlyPrimary(T) && Roomy(T)
    ensures DiscoverFull(T, Expected(T), true) == Outcome(Expected(T), Ending(T))
  {
    FullDiscovery(T, Expected(T));
    PartialIsExpected(T, Expected(T));
  }

  /** A characteristic is followed at once by another declaration. */
  ghost predicate HasBareCharacteristic(T: Table) {
    exists c :: c in T && T[c].Chrc? && c + 2 in T && !T[c + 2].Desc?
  }

  /**
   As it is written, with the assertion, discovery from an empty database completes exactly when no
   characteristic is followed at once by another declaration, or has its value at the last handle.
   */
  lemma AssertionHolds(T: Table)
    requires WellFormed(T) && OnlyPrimary(T) && Roomy(T)
    ensures var o := DiscoverFull(T, map[], false);
            && (o.err.None? <==> !HasBareCharacteristic(T) && !ValueIsLast(T))
            && (o.err.None? ==> o.db == Expected(T))
  {
    FullDiscovery(T, map[]);
    NothingHidden(T);
    assert (forall c <- T | T[c].Chrc? :: !NextIsKnown(T, map[], c)) <==> !HasBareCharacteristic(T);
  }

  // ---- Room ----

  lemma {:induction false} AnswerLength(T: Table, q: Query, ks: seq<int>)
    requires forall i | 0 <= i < |ks| :: ks[i] in T
    ensures |AnswerFrom(T, q, ks)| <= |ks|
  {
    if ks != [] {
      AnswerLength(T, q, ks[1..]);
    }
  }

  /** A table of fewer than 256 attributes always fits. */
  lemma SmallTablesHaveRoom(T: Table)
    requires |T| < 0x100
    ensures Roomy(T)
  {
    SortedLength(T.Keys);
    assert |T.Keys| == |T|;
    forall q ensures HasRoom(T, q) {
      AnswerLength(T, q, Sorted(T.Keys));
    }
  }

  // ---- Tables on which discovery falls short ----

  /** A characteristic without descriptors, directly before the next service. */
  function NoDescriptors(): Table {
    map[1 := Primary([0x0f, 0x18], 3), 2 := Chrc([0x19, 0x2a], 2, 3), 3 := Value([0x19, 0x2a], [100]),
        4 := Primary([0x0a, 0x18], 4)]
  }

  lemma NoDescriptorsWellFormed()
    ensures WellFormed(NoDescriptors()) && OnlyPrimary(NoDescriptors()) && Roomy(NoDescriptors())
    ensures HasBareCharacteristic(NoDescriptors())
  {
    var T := NoDescriptors();
    assert T.Keys == {1, 2, 3, 4};
    assert Spans(T, 1, 2);
    forall h <- T ensures PlacedRight(T, h) && !T[h].Secondary? && h < 5 {
      assert h == 1 || h == 2 || h == 3 || h == 4;
    }
    SmallTablesHaveRoom(T);
    assert 2 in T && T[2].Chrc? && 4 in T && !T[4].Desc?;
  }

  lemma AssertionFails()
    ensures var T := NoDescriptors();
            && WellFormed(T) && OnlyPrimary(T) && Roomy(T)
            && HasBareCharacteristic(T) && DiscoverFull(T, map[], false).err.Some?
  {
    var T := NoDescriptors();
    NoDescriptorsWellFormed();
    AssertionHolds(T);
  }

  /** If the first descriptor of a characteristic is known beforehand, one that is not known is never found. */
  lemma KnownDescriptorHidesSibling(T: Table, m0: Db, c: int, d: int)
    requires WellFormed(T) && OnlyPrimary(T) && Roomy(T) && PartOf(m0, T)
    requires Owns(T, c, d) && c + 2 in m0 && d !in m0
    ensures d !in DiscoverFull(T, m0, true).db
  {
    NotReachedIsKnown(T, m0, c, d);
    DiscoveredDb(T, m0);
  }

  /** A characteristic with two descriptors. */
  function TwoDescriptors(): Table {
    map[1 := Primary([0x0f, 0x18], 5), 2 := Chrc([0x19, 0x2a], 2, 3), 3 := Value([0x19, 0x2a], [100]),
        4 := Desc([0x02, 0x29], [0, 0]), 5 := Desc([0x01, 0x29], [7])]
  }

  lemma BothOwned()
    ensures Owns(TwoDescriptors(), 2, 4) && Owns(TwoDescriptors(), 2, 5)
  {
    assert TwoDescriptors().Keys == {1, 2, 3, 4, 5};
  }

  lemma TwoPlacedRight(h: int)
    requires h in TwoDescriptors()
    ensures PlacedRight(TwoDescriptors(), h) && !TwoDescriptors()[h].Secondary?
  {
    BothOwned();
    assert Spans(TwoDescriptors(), 1, 2);
    assert h == 1 || h == 2 || h == 3 || h == 4 || h == 5;
  }

  lemma TwoDescriptorsWellFormed()
    ensures var T := TwoDescriptors(); WellFormed(T) && OnlyPrimary(T) && Roomy(T) && Owns(T, 2, 4) && Owns(T, 2, 5)
  {
    var T := TwoDescriptors();
    BothOwned();
    forall h <- T ensures PlacedRight(T, h) && !T[h].Secondary? {
      TwoPlacedRight(h);
    }
    assert T.Keys == {1, 2, 3, 4, 5};
    SmallTablesHaveRoom(T);
  }

  /** A database that holds the first descriptor. */
  function FirstKnown(): Db {
    map[4 := GattCharacteristicDescriptor(4, 1, UuidText([0x02, 0x29]), 0, None)]
  }

  lemma FirstIsPart()
    ensures PartOf(FirstKnown(), TwoDescriptors())
  {
    assert ClientView(TwoDescriptors(), 4) == FirstKnown()[4];
  }

  /** Starting with the first descriptor only, discovery never finds the second one. */
  lemma SiblingIsHidden()
    ensures PartOf(FirstKnown(), TwoDescriptors()) && Owns(TwoDescriptors(), 2, 5)
    ensures 5 !in DiscoverFull(TwoDescriptors(), FirstKnown(), true).db
  {
    var T, m0 := TwoDescriptors(), FirstKnown();
    TwoDescriptorsWellFormed();
    FirstIsPart();
    assert 4 in m0 && 5 !in m0;
    KnownDescriptorHidesSibling(T, m0, 2, 5);
  }
}
