/** The GATT client's counters and lists, and when a procedure counts as done (stack/gatt_cl.py). */
module GattClient {
  import opened Bytes
  import opened Text
  import opened GattCodec
  import opened GattDb

  /** What another thread can see of a procedure at one moment. */
  datatype View<+T> = View(cnt: Option<int>, list: seq<T>, db: Db)

  predicate IsProcedureDone<T>(list: seq<T>, cnt: Option<int>) {
    if cnt.None? then false
    else if cnt.value <= 0 then true
    else |list| == cnt.value
  }

  predicate Done<T>(v: View<T>) {
    IsProcedureDone(v.list, v.cnt)
  }

  type Pair = (int, string)
  type Service = (int, int, string)

  /** The entries of a response event: address, status, and the count that is also the decoder's. */
  function Entries(kind: Kind, data: seq<byte>): Result<seq<TextEntry>> {
    if |data| < 9 then Err(StructError) else ClDecDiscRsp(kind, data[8..])
  }

  function AttrOf(e: TextEntry): DbAttr {
    match e
    case ServiceEntry(s, t, u) => GattPrimary(s, 1, u, 0, Some(t))
    case IncludeEntry(h, s, t, u) => GattServiceIncluded(h, 1, Some(u), 0, s, t)
    case CharacteristicEntry(h, vh, p, u) => GattDb.DbAttr.GattCharacteristic(h, 1, u, 0, p, vh)
    case DescriptorEntry(h, u) => GattCharacteristicDescriptor(h, 1, u, 0, None)
  }

  /** The database after the first n entries were added. */
  function Stored(db: Db, es: seq<TextEntry>, n: nat): Db
    requires n <= |es|
  {
    if n == 0 then db else Stored(db, es, n - 1)[AttrOf(es[n - 1]).handle := AttrOf(es[n - 1])]
  }

  /** What goes into the list for an entry. */
  function ChrcItem(e: TextEntry): Pair {
    match e
    case CharacteristicEntry(_, vh, _, u) => (vh, u)
    case _ => (0, "")
  }

  function DescItem(e: TextEntry): Pair {
    match e
    case DescriptorEntry(h, u) => (h, u)
    case _ => (0, "")
  }

  function ServiceItem(e: TextEntry): Service {
    match e
    case ServiceEntry(s, t, u) => (s, t, u)
    case _ => (0, 0, "")
  }

  function Items<T>(item: TextEntry -> T, es: seq<TextEntry>): (r: seq<T>)
    ensures |r| == |es|
  {
    seq(|es|, i requires 0 <= i < |es| => item(es[i]))
  }

  /** The moments of a handler before its loops: the list is emptied, then the count is set. */
  function Opening<T>(before: View<T>, cnt: int): seq<View<T>> {
    [before.(list := [])] + [View(Some(cnt), [], before.db)]
  }

  /** The first n rounds of a loop that fills the list. */
  function Filling<T>(item: TextEntry -> T, db: Db, es: seq<TextEntry>, n: nat): seq<View<T>>
    requires n <= |es|
  {
    seq(n, k requires 0 <= k < n => View(Some(|es|), Items(item, es)[..k + 1], db))
  }

  /** The first n rounds of a loop that fills the database. */
  function Storing<T>(item: TextEntry -> T, db: Db, es: seq<TextEntry>, n: nat): seq<View<T>>
    requires n <= |es|
  {
    seq(n, k requires 0 <= k < n => View(Some(|es|), Items(item, es), Stored(db, es, k + 1)))
  }

  /** Two loops: the list is filled, then the database. */
  function FillThenStore<T>(item: TextEntry -> T, db: Db, es: seq<TextEntry>): seq<View<T>> {
    Filling(item, db, es, |es|) + Storing(item, db, es, |es|)
  }

  /** The first n rounds of one loop that fills both. */
  function Weaving<T>(item: TextEntry -> T, db: Db, es: seq<TextEntry>, n: nat): seq<View<T>>
    requires n <= |es|
  {
    seq(2 * n, k requires 0 <= k < 2 * n => View(Some(|es|), Items(item, es)[..k / 2 + 1], Stored(db, es, (k + 1) / 2)))
  }

  function FillAndStore<T>(item: TextEntry -> T, db: Db, es: seq<TextEntry>): seq<View<T>> {
    Weaving(item, db, es, |es|)
  }

  /** All the moments of the handlers. */
  function ChrcViews(before: View<Pair>, data: seq<byte>): seq<View<Pair>> {
    if |data| < 9 then []
    else
      var es := Entries(Characteristic, data);
      Opening(before, data[8]) + if es.Err? then [] else FillThenStore(ChrcItem, before.db, es.value)
  }

  /** The descriptor handler empties the list and sets the count again before its loop. */
  function DescRounds(db: Db, es: seq<TextEntry>): seq<View<Pair>> {
    if es == [] then [] else Opening(View(Some(|es|), [], db), |es|) + FillAndStore(DescItem, db, es)
  }

  function DescViews(before: View<Pair>, data: seq<byte>): seq<View<Pair>> {
    if |data| < 9 then []
    else
      var es := Entries(Descriptor, data);
      Opening(before, data[8]) + if es.Err? then [] else DescRounds(before.db, es.value)
  }

  function ServiceViews(before: View<Service>, data: seq<byte>): seq<View<Service>> {
    if |data| < 9 then []
    else
      var es := Entries(Kind.Service, data);
      Opening(before, data[8]) + if es.Err? then [] else FillAndStore(ServiceItem, before.db, es.value)
  }

  /** Whenever the procedure counts as done, the list holds all that the response holds. */
  ghost predicate NoEarlyCompletion<T>(views: seq<View<T>>, item: TextEntry -> T, es: Result<seq<TextEntry>>) {
    forall i | 0 <= i < |views| :: Done(views[i]) ==> es.Ok? && views[i].list == Items(item, es.value)
  }

  /** A count of zero is left from an earlier response, and this one counts more. */
  predicate StaleZero<T>(before: View<T>, data: seq<byte>) {
    |data| >= 9 && before.cnt.Some? && before.cnt.value <= 0 && data[8] > 0
  }

  /** The count that the handler reads is the number of the entries that the decoder finds. */
  lemma CountIsShared(kind: Kind, data: seq<byte>)
    requires Entries(kind, data).Ok?
    ensures |Entries(kind, data).value| == data[8]
  {
    var d := data[8..];
    ClDecDiscRspRefines(kind, d);
    var es := DecDiscRsp(kind, d).value;
    DiscRspExact(kind, d, es);
    assert EncodeResponse(kind, es)[0] == d[0];
  }

  lemma NoEntries(kind: Kind, data: seq<byte>)
    requires |data| >= 9 && data[8] == 0
    ensures Entries(kind, data) == Ok([])
  {
    assert data[8..][0] == 0;
  }

  lemma FillingIsRight<T>(item: TextEntry -> T, db: Db, es: seq<TextEntry>)
    ensures NoEarlyCompletion(FillThenStore(item, db, es), item, Ok(es))
    ensures NoEarlyCompletion(FillAndStore(item, db, es), item, Ok(es))
  {
    assert Items(item, es)[..|es|] == Items(item, es);
  }

  lemma OpeningIsRight<T>(before: View<T>, item: TextEntry -> T, kind: Kind, data: seq<byte>)
    requires |data| >= 9
    ensures NoEarlyCompletion(Opening(before, data[8]), item, Entries(kind, data)) <==> !StaleZero(before, data)
  {
    var es := Entries(kind, data);
    if data[8] == 0 {
      NoEntries(kind, data);
    } else {
      assert Opening(before, data[8])[0] == before.(list := []);
      if es.Ok? {
        CountIsShared(kind, data);
      }
    }
  }

  lemma RightTogether<T>(a: seq<View<T>>, b: seq<View<T>>, item: TextEntry -> T, es: Result<seq<TextEntry>>)
    ensures NoEarlyCompletion(a + b, item, es) <==> NoEarlyCompletion(a, item, es) && NoEarlyCompletion(b, item, es)
  {
    assert forall i | 0 <= i < |a| :: a[i] == (a + b)[i];
    assert forall i | 0 <= i < |b| :: b[i] == (a + b)[|a| + i];
  }

  /**
   No early completion, exactly: at every moment of a handler that is done, the list is complete, unless
   a count of zero was left over and the new response counts more.
   */
  lemma ChrcsNotEarly(before: View<Pair>, data: seq<byte>)
    ensures NoEarlyCompletion(ChrcViews(before, data), ChrcItem, Entries(Characteristic, data)) <==>
            !StaleZero(before, data)
  {
    var es := Entries(Characteristic, data);
    if |data| >= 9 {
      OpeningIsRight(before, ChrcItem, Characteristic, data);
      if es.Ok? {
        FillingIsRight(ChrcItem, before.db, es.value);
        RightTogether(Opening(before, data[8]), FillThenStore(ChrcItem, before.db, es.value), ChrcItem, es);
      } else {
        RightTogether(Opening(before, data[8]), [], ChrcItem, es);
      }
    }
  }

  lemma DescsNotEarly(before: View<Pair>, data: seq<byte>)
    ensures NoEarlyCompletion(DescViews(before, data), DescItem, Entries(Descriptor, data)) <==>
            !StaleZero(before, data)
  {
    var es := Entries(Descriptor, data);
    if |data| >= 9 {
      var opening := Opening(before, data[8]);
      OpeningIsRight(before, DescItem, Descriptor, data);
      if es.Ok? {
        var again := Opening(View(Some(|es.value|), [], before.db), |es.value|);
        var weave := FillAndStore(DescItem, before.db, es.value);
        FillingIsRight(DescItem, before.db, es.value);
        assert es.value != [] ==> NoEarlyCompletion(again, DescItem, es);
        RightTogether(again, weave, DescItem, es);
        RightTogether(opening, DescRounds(before.db, es.value), DescItem, es);
      } else {
        RightTogether(opening, [], DescItem, es);
      }
    }
  }

  lemma ServicesNotEarly(before: View<Service>, data: seq<byte>)
    ensures NoEarlyCompletion(ServiceViews(before, data), ServiceItem, Entries(Kind.Service, data)) <==>
            !StaleZero(before, data)
  {
    var es := Entries(Kind.Service, data);
    if |data| >= 9 {
      OpeningIsRight(before, ServiceItem, Kind.Service, data);
      if es.Ok? {
        FillingIsRight(ServiceItem, before.db, es.value);
        RightTogether(Opening(before, data[8]), FillAndStore(ServiceItem, before.db, es.value), ServiceItem, es);
      } else {
        RightTogether(Opening(before, data[8]), [], ServiceItem, es);
      }
    }
  }

  // Requests

  /** The characteristic and descriptor requests forget the count, then the list. */
  function RequestViews<T>(before: View<T>): seq<View<T>> {
    [before.(cnt := None), before.(cnt := None, list := [])]
  }

  /** The state that a handler leaves: that of its last moment. */
  function Last<T>(before: View<T>, views: seq<View<T>>): View<T> {
    if views == [] then before else views[|views| - 1]
  }

  /**
   From a characteristic request until its handler is finished the procedure counts as done only with the
   complete list, and at the end it is done exactly if the response could be decoded.
   */
  lemma ChrcRequestToResponse(before: View<Pair>, data: seq<byte>)
    ensures var requested := Last(before, RequestViews(before));
            var views := RequestViews(before) + ChrcViews(requested, data);
            && NoEarlyCompletion(views, ChrcItem, Entries(Characteristic, data))
            && (Done(Last(before, views)) <==> Entries(Characteristic, data).Ok?)
  {
    var requested := Last(before, RequestViews(before));
    ChrcsNotEarly(requested, data);
    RightTogether(RequestViews(before), ChrcViews(requested, data), ChrcItem, Entries(Characteristic, data));
    if |data| >= 9 && data[8] == 0 {
      NoEntries(Characteristic, data);
    } else if Entries(Characteristic, data).Ok? {
      CountIsShared(Characteristic, data);
    }
  }

  lemma DescRequestToResponse(before: View<Pair>, data: seq<byte>)
    ensures var requested := Last(before, RequestViews(before));
            var views := RequestViews(before) + DescViews(requested, data);
            && NoEarlyCompletion(views, DescItem, Entries(Descriptor, data))
            && (Done(Last(before, views)) <==> Entries(Descriptor, data).Ok?)
  {
    var requested := Last(before, RequestViews(before));
    DescsNotEarly(requested, data);
    RightTogether(RequestViews(before), DescViews(requested, data), DescItem, Entries(Descriptor, data));
    if |data| >= 9 && data[8] == 0 {
      NoEntries(Descriptor, data);
    } else if Entries(Descriptor, data).Ok? {
      CountIsShared(Descriptor, data);
    }
  }

  /**
   The service requests write nothing. So from the request on there is no early completion exactly if no
   zero count was left over, and the procedure was not done before either, but with the very list that the
   response holds.
   */
  lemma ServiceRequestIsStale(before: View<Service>, data: seq<byte>)
    ensures var es := Entries(Kind.Service, data);
            NoEarlyCompletion([before] + ServiceViews(before, data), ServiceItem, es) <==>
            !StaleZero(before, data) && (Done(before) ==> es.Ok? && before.list == Items(ServiceItem, es.value))
  {
    var es := Entries(Kind.Service, data);
    ServicesNotEarly(before, data);
    RightTogether([before], ServiceViews(before, data), ServiceItem, es);
    assert NoEarlyCompletion([before], ServiceItem, es) <==>
        (Done([before][0]) ==> es.Ok? && before.list == Items(ServiceItem, es.value));
  }

  // The done predicate reads the list and the count, one after the other, in another thread

  /**
   Whenever the list of one moment and the count of the same or a later one say that the procedure is done,
   the list is complete by the later one.
   */
  ghost predicate NoTornCompletion<T>(views: seq<View<T>>, item: TextEntry -> T, es: Result<seq<TextEntry>>) {
    forall i, j | 0 <= i <= j < |views| && IsProcedureDone(views[i].list, views[j].cnt) ::
      es.Ok? && views[j].list == Items(item, es.value)
  }

  /** The moments of a handler from the count on: no list is longer than the count, and done lists are complete. */
  ghost predicate CountedRight<T>(views: seq<View<T>>, cnt: int, item: TextEntry -> T, es: Result<seq<TextEntry>>) {
    && (forall i | 0 <= i < |views| :: views[i].cnt == Some(cnt) && |views[i].list| <= cnt)
    && (forall i, j | 0 <= i <= j < |views| :: |views[i].list| <= |views[j].list|)
    && NoEarlyCompletion(views, item, es)
  }

  /** While the count stays, a list that has its length stays complete. */
  lemma CountedIsNotTorn<T>(views: seq<View<T>>, cnt: int, item: TextEntry -> T, es: Result<seq<TextEntry>>)
    requires CountedRight(views, cnt, item, es)
    ensures NoTornCompletion(views, item, es)
  {
    forall i, j | 0 <= i <= j < |views| && IsProcedureDone(views[i].list, views[j].cnt)
      ensures es.Ok? && views[j].list == Items(item, es.value)
    {
      assert Done(views[j]);
    }
  }

  /** Moments before the count: they do harm only if one of their lists has the length of the count. */
  lemma TornByFront<T>(front: seq<View<T>>, views: seq<View<T>>, cnt: int, item: TextEntry -> T,
      es: Result<seq<TextEntry>>)
    requires CountedRight(views, cnt, item, es) && views != [] && views[0].list == []
    requires cnt >= 0 && (cnt == 0 ==> es.Ok?) && (es.Ok? ==> |es.value| == cnt)
    ensures NoTornCompletion(front + views, item, es) <==>
            NoTornCompletion(front, item, es) && (cnt > 0 ==> forall i | 0 <= i < |front| :: |front[i].list| != cnt)
  {
    var all := front + views;
    CountedIsNotTorn(views, cnt, item, es);
    if NoTornCompletion(all, item, es) {
      assert forall i | 0 <= i < |front| :: all[i] == front[i];
      forall i | 0 <= i < |front| && cnt > 0 ensures |front[i].list| != cnt {
        assert all[|front|] == views[0] && !(es.Ok? && [] == Items(item, es.value));
        assert !IsProcedureDone(all[i].list, all[|front|].cnt);
      }
    }
    if NoTornCompletion(front, item, es) && (cnt > 0 ==> forall i | 0 <= i < |front| :: |front[i].list| != cnt) {
      forall i, j | 0 <= i <= j < |all| && IsProcedureDone(all[i].list, all[j].cnt)
        ensures es.Ok? && all[j].list == Items(item, es.value)
      {
        if j < |front| {
          assert IsProcedureDone(front[i].list, front[j].cnt);
        } else if i >= |front| {
          assert IsProcedureDone(views[i - |front|].list, views[j - |front|].cnt);
        } else {
          assert views[j - |front|].cnt == Some(cnt) && all[i] == front[i];
        }
      }
    }
  }

  lemma FilledLists<T>(item: TextEntry -> T, db: Db, es: seq<TextEntry>)
    ensures forall k | 0 <= k < 2 * |es| ::
              && FillThenStore(item, db, es)[k].cnt == Some(|es|)
              && FillThenStore(item, db, es)[k].list == Items(item, es)[..if k < |es| then k + 1 else |es|]
  {
    var n := |es|;
    forall k | 0 <= k < 2 * n
      ensures FillThenStore(item, db, es)[k].list == Items(item, es)[..if k < n then k + 1 else n]
    {
      if k >= n {
        assert FillThenStore(item, db, es)[k] == Storing(item, db, es, n)[k - n];
        assert Items(item, es)[..n] == Items(item, es);
      }
    }
  }

  lemma WovenLists<T>(item: TextEntry -> T, db: Db, es: seq<TextEntry>)
    ensures forall k | 0 <= k < 2 * |es| ::
              && FillAndStore(item, db, es)[k].cnt == Some(|es|)
              && FillAndStore(item, db, es)[k].list == Items(item, es)[..k / 2 + 1]
  {
  }

  /** The empty list in front of growing ones. */
  lemma GrowingIsCounted<T>(v: View<T>, views: seq<View<T>>, cnt: int, item: TextEntry -> T, es: seq<TextEntry>)
    requires v.cnt == Some(cnt) && v.list == [] && cnt == |es| && |views| == 2 * |es|
    requires forall k | 0 <= k < |views| :: views[k].cnt == Some(cnt)
    requires
      || (forall k | 0 <= k < |views| :: views[k].list == Items(item, es)[..if k < |es| then k + 1 else |es|])
      || (forall k | 0 <= k < |views| :: views[k].list == Items(item, es)[..k / 2 + 1])
    ensures CountedRight([v] + views, cnt, item, Ok(es))
  {
    var all := [v] + views;
    assert Items(item, es)[..|es|] == Items(item, es);
    assert forall k | 0 < k < |all| :: all[k] == views[k - 1];
    assert all[0] == v;
    forall i, j | 0 <= i <= j < |all| ensures |all[i].list| <= |all[j].list| {
    }
  }

  /** The moments of the characteristic handler, and of the service handler, from the count on. */
  lemma ChrcsCounted(before: View<Pair>, data: seq<byte>) returns (counted: seq<View<Pair>>)
    requires |data| >= 9
    ensures counted != [] && counted[0].list == []
    ensures CountedRight(counted, data[8], ChrcItem, Entries(Characteristic, data))
    ensures ChrcViews(before, data) == [before.(list := [])] + counted
  {
    var es := Entries(Characteristic, data);
    var v := View(Some(data[8] as int), [], before.db);
    if es.Err? {
      counted := [v];
      if data[8] == 0 {
        NoEntries(Characteristic, data);
      }
    } else {
      CountIsShared(Characteristic, data);
      FilledLists(ChrcItem, before.db, es.value);
      counted := [v] + FillThenStore(ChrcItem, before.db, es.value);
      GrowingIsCounted(v, FillThenStore(ChrcItem, before.db, es.value), data[8], ChrcItem, es.value);
    }
  }

  lemma ServicesCounted(before: View<Service>, data: seq<byte>) returns (counted: seq<View<Service>>)
    requires |data| >= 9
    ensures counted != [] && counted[0].list == []
    ensures CountedRight(counted, data[8], ServiceItem, Entries(Kind.Service, data))
    ensures ServiceViews(before, data) == [before.(list := [])] + counted
  {
    var es := Entries(Kind.Service, data);
    var v := View(Some(data[8] as int), [], before.db);
    if es.Err? {
      counted := [v];
      if data[8] == 0 {
        NoEntries(Kind.Service, data);
      }
    } else {
      CountIsShared(Kind.Service, data);
      WovenLists(ServiceItem, before.db, es.value);
      counted := [v] + FillAndStore(ServiceItem, before.db, es.value);
      GrowingIsCounted(v, FillAndStore(ServiceItem, before.db, es.value), data[8], ServiceItem, es.value);
    }
  }

  lemma CountAndEntries(kind: Kind, data: seq<byte>)
    requires |data| >= 9
    ensures var es := Entries(kind, data); (data[8] == 0 ==> es.Ok?) && (es.Ok? ==> |es.value| == data[8])
  {
    if data[8] == 0 {
      NoEntries(kind, data);
    }
    if Entries(kind, data).Ok? {
      CountIsShared(kind, data);
    }
  }

  /**
   From a characteristic request on, with the list and the count read at two moments: no reader sees the
   procedure done with a list that is not complete, but one that took the old list before the reset put a
   new one in its place, if that has the length of the new count. From the end of the resets on no one does.
   */
  lemma ChrcsTornExactly(before: View<Pair>, data: seq<byte>)
    ensures var requested := Last(before, RequestViews(before));
            var es := Entries(Characteristic, data);
            && NoTornCompletion([requested] + ChrcViews(requested, data), ChrcItem, es)
            && (NoTornCompletion(RequestViews(before) + ChrcViews(requested, data), ChrcItem, es) <==>
                !(|data| >= 9 && data[8] > 0 && |before.list| == data[8]))
  {
    var requested := Last(before, RequestViews(before));
    var es := Entries(Characteristic, data);
    if |data| >= 9 {
      var counted := ChrcsCounted(requested, data);
      CountAndEntries(Characteristic, data);
      ResetsInFront(before, counted, data[8], es);
    }
  }

  lemma ResetsInFront(before: View<Pair>, counted: seq<View<Pair>>, cnt: int, es: Result<seq<TextEntry>>)
    requires CountedRight(counted, cnt, ChrcItem, es) && counted != [] && counted[0].list == []
    requires cnt >= 0 && (cnt == 0 ==> es.Ok?) && (es.Ok? ==> |es.value| == cnt)
    ensures var requested := Last(before, RequestViews(before));
            && NoTornCompletion([requested] + ([requested] + counted), ChrcItem, es)
            && (NoTornCompletion(RequestViews(before) + ([requested] + counted), ChrcItem, es) <==>
                !(cnt > 0 && |before.list| == cnt))
  {
    var requested := Last(before, RequestViews(before));
    var late, early := [requested, requested], RequestViews(before) + [requested];
    assert [requested] + ([requested] + counted) == late + counted;
    assert RequestViews(before) + ([requested] + counted) == early + counted;
    TornByFront(late, counted, cnt, ChrcItem, es);
    TornByFront(early, counted, cnt, ChrcItem, es);
    assert early[0].list == before.list;
  }

  /**
   The service requests reset nothing: there an old count, or an old list with the new count, can be taken
   for the new ones.
   */
  lemma ServicesTornExactly(before: View<Service>, data: seq<byte>)
    ensures var es := Entries(Kind.Service, data);
            NoTornCompletion([before] + ServiceViews(before, data), ServiceItem, es) <==>
            && (Done(before) ==> es == Ok([]) && before.list == [])
            && !(|data| >= 9 && data[8] > 0 && |before.list| == data[8])
  {
    if |data| >= 9 {
      ServicesTornWithCount(before, data);
    } else {
      assert [before] + [] == [before];
      AloneIsTorn(before, Entries(Kind.Service, data));
    }
  }

  lemma AloneIsTorn(before: View<Service>, es: Result<seq<TextEntry>>)
    requires es.Err?
    ensures NoTornCompletion([before], ServiceItem, es) <==> !Done(before)
  {
    assert [before][0] == before;
  }

  lemma ServicesTornWithCount(before: View<Service>, data: seq<byte>)
    requires |data| >= 9
    ensures var es := Entries(Kind.Service, data);
            NoTornCompletion([before] + ServiceViews(before, data), ServiceItem, es) <==>
            (Done(before) ==> es == Ok([]) && before.list == []) && !(data[8] > 0 && |before.list| == data[8])
  {
    var counted := ServicesCounted(before, data);
    CountAndEntries(Kind.Service, data);
    StaleInFront(before, counted, data[8], Entries(Kind.Service, data));
  }

  lemma StaleInFront(before: View<Service>, counted: seq<View<Service>>, cnt: int, es: Result<seq<TextEntry>>)
    requires CountedRight(counted, cnt, ServiceItem, es) && counted != [] && counted[0].list == []
    requires cnt >= 0 && (cnt == 0 ==> es.Ok?) && (es.Ok? ==> |es.value| == cnt)
    ensures NoTornCompletion([before] + ([before.(list := [])] + counted), ServiceItem, es) <==>
            (Done(before) ==> es == Ok([]) && before.list == []) && !(cnt > 0 && |before.list| == cnt)
  {
    var front := [before, before.(list := [])];
    assert [before] + ([before.(list := [])] + counted) == front + counted;
    TornByFront(front, counted, cnt, ServiceItem, es);
    assert front[0] == before && front[1] == before.(list := []);
    FrontOfServices(before, es);
  }

  lemma FrontOfServices(before: View<Service>, es: Result<seq<TextEntry>>)
    ensures NoTornCompletion([before, before.(list := [])], ServiceItem, es) <==>
            (Done(before) ==> es == Ok([]) && before.list == [])
  {
    var front := [before, before.(list := [])];
    if NoTornCompletion(front, ServiceItem, es) && Done(before) {
      assert IsProcedureDone(front[0].list, front[0].cnt) && IsProcedureDone(front[0].list, front[1].cnt);
      assert |Items(ServiceItem, es.value)| == 0;
    }
  }

  /** What a response with entries adds to the moments before its loops. */
  lemma ChrcsDecoded(before: View<Pair>, data: seq<byte>)
    requires Entries(Characteristic, data).Ok?
    ensures |data| >= 9
    ensures var es := Entries(Characteristic, data).value;
            && |es| == data[8]
            && ChrcViews(before, data) == Opening(before, data[8]) + FillThenStore(ChrcItem, before.db, es)
            && Last(before, ChrcViews(before, data)) ==
                View(Some(|es|), Items(ChrcItem, es), Stored(before.db, es, |es|))
  {
    CountIsShared(Characteristic, data);
    var es := Entries(Characteristic, data).value;
    assert es == [] ==> Items(ChrcItem, es) == [];
  }

  /**
   The database is another matter: the characteristic procedure is done before the handler has stored a
   single characteristic, so a reader sees the old database unless the response changes nothing in it.
   */
  lemma ChrcsDoneBeforeStored(before: View<Pair>, data: seq<byte>)
    requires Entries(Characteristic, data).Ok? && data[8] > 0
    ensures |ChrcViews(before, data)| == 2 + 2 * (data[8] as int)
    ensures var v := ChrcViews(before, data)[1 + data[8] as int]; Done(v) && v.db == before.db
  {
    ChrcsDecoded(before, data);
    var es := Entries(Characteristic, data).value;
    var fill := FillThenStore(ChrcItem, before.db, es);
    assert |fill| == 2 * |es| && fill[|es| - 1] == View(Some(|es|), Items(ChrcItem, es)[..|es|], before.db);
    assert (Opening(before, data[8]) + fill)[2 + (|es| - 1)] == fill[|es| - 1];
  }

  /** The entries are in the database as they are. */
  predicate AllStored(db: Db, es: seq<TextEntry>) {
    forall k | 0 <= k < |es| :: AttrOf(es[k]).handle in db && db[AttrOf(es[k]).handle] == AttrOf(es[k])
  }

  lemma {:induction false} StoredAgain(db: Db, es: seq<TextEntry>, n: nat)
    requires n <= |es| && AllStored(db, es)
    ensures Stored(db, es, n) == db
  {
    if n > 0 {
      StoredAgain(db, es, n - 1);
    }
  }

  /** Whenever the procedure counts as done, the database is as the handler leaves it. */
  ghost predicate StoredWhenDone(views: seq<View<Pair>>, db: Db) {
    forall i | 0 <= i < |views| && Done(views[i]) :: views[i].db == db
  }

  lemma StoredEachTime(db: Db, es: seq<TextEntry>)
    requires forall n | 0 <= n <= |es| :: Stored(db, es, n) == db
    ensures AllStored(db, es)
  {
    forall k | 0 <= k < |es| ensures AttrOf(es[k]).handle in db && db[AttrOf(es[k]).handle] == AttrOf(es[k]) {
      assert Stored(db, es, k + 1) == db && Stored(db, es, k) == db;
    }
  }

  /**
   So the database of a done characteristic procedure can be trusted exactly if it held all of the response's
   characteristics before.
   */
  lemma ChrcsStoredExactly(before: View<Pair>, data: seq<byte>)
    requires Entries(Characteristic, data).Ok? && data[8] > 0 && !StaleZero(before, data)
    ensures var es := Entries(Characteristic, data).value;
            StoredWhenDone(ChrcViews(before, data), Stored(before.db, es, |es|)) <==> AllStored(before.db, es)
  {
    var es := Entries(Characteristic, data).value;
    var views, fill := ChrcViews(before, data), FillThenStore(ChrcItem, before.db, es);
    ChrcsDecoded(before, data);
    FilledLists(ChrcItem, before.db, es);
    if AllStored(before.db, es) {
      forall i | 0 <= i < |views| && Done(views[i]) ensures views[i].db == Stored(before.db, es, |es|) {
        StoredAgain(before.db, es, |es|);
        if i >= 2 + |es| {
          assert views[i] == Storing(ChrcItem, before.db, es, |es|)[i - 2 - |es|];
          StoredAgain(before.db, es, i - 1 - |es|);
        }
      }
    }
    if StoredWhenDone(views, Stored(before.db, es, |es|)) {
      ChrcsDoneBeforeStored(before, data);
      forall n | 0 < n <= |es| ensures Stored(before.db, es, n) == before.db {
        assert views[1 + |es| + n] == Storing(ChrcItem, before.db, es, |es|)[n - 1];
        assert Done(views[1 + |es| + n]);
      }
      StoredEachTime(before.db, es);
    }
  }

  /** The other handlers are done when at most the last entry is not stored yet. */
  lemma DoneBeforeLastIsStored<T>(item: TextEntry -> T, db: Db, es: seq<TextEntry>, i: nat)
    requires i < |FillAndStore(item, db, es)| && Done(FillAndStore(item, db, es)[i])
    ensures FillAndStore(item, db, es)[i].db == Stored(db, es, if i == 2 * |es| - 1 then |es| else |es| - 1)
  {
    assert |FillAndStore(item, db, es)[i].list| == i / 2 + 1;
  }

  /** Without entries, or with entries that cannot be decoded, there are no other moments. */
  lemma ChrcsNotFilled(before: View<Pair>, data: seq<byte>)
    requires |data| >= 9
    ensures data[8] == 0 ==> Entries(Characteristic, data).Ok?
    ensures data[8] == 0 || Entries(Characteristic, data).Err? ==>
              && ChrcViews(before, data) == Opening(before, data[8])
              && Last(before, ChrcViews(before, data)) == View(Some(data[8] as int), [], before.db)
  {
    if data[8] == 0 {
      NoEntries(Characteristic, data);
    }
  }

  /** All the moments of the descriptor and the service handler, and what they leave. */
  lemma DescsDecoded(before: View<Pair>, data: seq<byte>)
    requires Entries(Descriptor, data).Ok? && |data| >= 9 && data[8] > 0
    ensures var es := Entries(Descriptor, data).value;
            && |es| == data[8]
            && DescViews(before, data) == Opening(before, data[8]) + DescRounds(before.db, es)
            && Last(before, DescViews(before, data)) ==
                View(Some(|es|), Items(DescItem, es), Stored(before.db, es, |es|))
  {
    CountIsShared(Descriptor, data);
    var es := Entries(Descriptor, data).value;
    var weave := FillAndStore(DescItem, before.db, es);
    assert weave[2 * |es| - 1] == View(Some(|es|), Items(DescItem, es)[..|es|], Stored(before.db, es, |es|));
    assert DescRounds(before.db, es)[2 + (2 * |es| - 1)] == weave[2 * |es| - 1];
  }

  lemma DescsNotFilled(before: View<Pair>, data: seq<byte>)
    requires |data| >= 9
    ensures data[8] == 0 ==> Entries(Descriptor, data).Ok?
    ensures data[8] == 0 || Entries(Descriptor, data).Err? ==>
              && DescViews(before, data) == Opening(before, data[8])
              && Last(before, DescViews(before, data)) == View(Some(data[8] as int), [], before.db)
  {
    if data[8] == 0 {
      NoEntries(Descriptor, data);
    }
  }

  lemma ServicesDecoded(before: View<Service>, data: seq<byte>)
    requires Entries(Kind.Service, data).Ok? && |data| >= 9 && data[8] > 0
    ensures var es := Entries(Kind.Service, data).value;
            && |es| == data[8]
            && ServiceViews(before, data) == Opening(before, data[8]) + FillAndStore(ServiceItem, before.db, es)
            && Last(before, ServiceViews(before, data)) ==
                View(Some(|es|), Items(ServiceItem, es), Stored(before.db, es, |es|))
  {
    CountIsShared(Kind.Service, data);
    var es := Entries(Kind.Service, data).value;
    var weave := FillAndStore(ServiceItem, before.db, es);
    assert weave[2 * |es| - 1] == View(Some(|es|), Items(ServiceItem, es)[..|es|], Stored(before.db, es, |es|));
  }

  lemma ServicesNotFilled(before: View<Service>, data: seq<byte>)
    requires |data| >= 9
    ensures data[8] == 0 ==> Entries(Kind.Service, data).Ok?
    ensures data[8] == 0 || Entries(Kind.Service, data).Err? ==>
              && ServiceViews(before, data) == Opening(before, data[8])
              && Last(before, ServiceViews(before, data)) == View(Some(data[8] as int), [], before.db)
  {
    if data[8] == 0 {
      NoEntries(Kind.Service, data);
    }
  }

  lemma WeavingRound<T>(item: TextEntry -> T, db: Db, es: seq<TextEntry>, n: nat)
    requires n < |es|
    ensures Weaving(item, db, es, n + 1) ==
            Weaving(item, db, es, n) + [View(Some(|es|), Items(item, es)[..n] + [item(es[n])], Stored(db, es, n))]
              + [View(Some(|es|), Items(item, es)[..n] + [item(es[n])], Stored(db, es, n + 1))]
  {
    assert Items(item, es)[..n + 1] == Items(item, es)[..n] + [item(es[n])];
  }

  // From the wire to the lists

  lemma {:induction false} TextualAt(es: seq<RawEntry>, k: nat)
    requires k < |es|
    ensures TextualAll(es)[k] == Textual(es[k])
  {
    if k > 0 {
      TextualAt(es[1..], k - 1);
    }
  }

  /** A response event: eight bytes of address and status, and the encoded entries. */
  lemma EntriesFromWire(kind: Kind, header: seq<byte>, es: seq<RawEntry>)
    requires |header| == 8 && Fits(kind, es) && AllUuids(es)
    ensures Entries(kind, header + EncodeResponse(kind, es)) == Ok(TextualAll(es))
    ensures |header + EncodeResponse(kind, es)| >= 9 && (header + EncodeResponse(kind, es))[8] == |es|
  {
    var data := header + EncodeResponse(kind, es);
    assert data[8..] == EncodeResponse(kind, es) && data[8] == EncodeResponse(kind, es)[0];
    DiscRspRoundTrip(kind, es);
    ClDecDiscRspRefines(kind, EncodeResponse(kind, es));
  }

  /** The k-th of the first n entries is the last one at its handle. */
  predicate IsLastAt(es: seq<TextEntry>, n: nat, k: nat)
    requires n <= |es|
  {
    k < n && forall j | k < j < n :: AttrOf(es[j]).handle != AttrOf(es[k]).handle
  }

  lemma {:induction false} StoredIsLast(db: Db, es: seq<TextEntry>, n: nat, h: int)
    requires n <= |es|
    ensures forall k | 0 <= k < n && IsLastAt(es, n, k) && AttrOf(es[k]).handle == h ::
              h in Stored(db, es, n) && Stored(db, es, n)[h] == AttrOf(es[k])
    ensures (forall k | 0 <= k < n :: AttrOf(es[k]).handle != h) ==> Lookup(Stored(db, es, n), h) == Lookup(db, h)
  {
    if n > 0 {
      StoredIsLast(db, es, n - 1, h);
      forall k | 0 <= k < n - 1 && IsLastAt(es, n, k) ensures IsLastAt(es, n - 1, k) {
      }
    }
  }

  /** After storing entries, each handle holds its last one, and the others are as before. */
  lemma StoredByHandle(db: Db, es: seq<TextEntry>)
    ensures forall k | 0 <= k < |es| && IsLastAt(es, |es|, k) ::
              Lookup(Stored(db, es, |es|), AttrOf(es[k]).handle) == Some(AttrOf(es[k]))
    ensures forall h | (forall k | 0 <= k < |es| :: AttrOf(es[k]).handle != h) ::
              Lookup(Stored(db, es, |es|), h) == Lookup(db, h)
  {
    forall k | 0 <= k < |es| && IsLastAt(es, |es|, k)
      ensures Lookup(Stored(db, es, |es|), AttrOf(es[k]).handle) == Some(AttrOf(es[k]))
    {
      StoredIsLast(db, es, |es|, AttrOf(es[k]).handle);
    }
    forall h | (forall k | 0 <= k < |es| :: AttrOf(es[k]).handle != h)
      ensures Lookup(Stored(db, es, |es|), h) == Lookup(db, h)
    {
      StoredIsLast(db, es, |es|, h);
    }
  }

  /** The handle that an entry is stored under. */
  function DeclHdl(e: RawEntry): u16 {
    if e.ServiceEntry? then e.startHdl else e.handle
  }

  /** No later entry has the handle of the k-th. */
  predicate NoLater(es: seq<RawEntry>, k: nat) {
    k < |es| && forall j | k < j < |es| :: DeclHdl(es[j]) != DeclHdl(es[k])
  }

  lemma StoredFromWire(db: Db, es: seq<RawEntry>)
    ensures var m := Stored(db, TextualAll(es), |es|);
            && (forall k | 0 <= k < |es| && NoLater(es, k) ::
                  Lookup(m, DeclHdl(es[k])) == Some(AttrOf(Textual(es[k]))))
            && (forall h | (forall k | 0 <= k < |es| :: DeclHdl(es[k]) as int != h) :: Lookup(m, h) == Lookup(db, h))
  {
    var ts := TextualAll(es);
    StoredByHandle(db, ts);
    forall k | 0 <= k < |es| ensures ts[k] == Textual(es[k]) && AttrOf(ts[k]).handle == DeclHdl(es[k]) as int {
      TextualAt(es, k);
    }
    forall k | 0 <= k < |es| && NoLater(es, k) ensures IsLastAt(ts, |ts|, k) {
    }
  }

  lemma ItemAt<T>(item: TextEntry -> T, es: seq<RawEntry>, k: nat)
    requires k < |es|
    ensures Items(item, TextualAll(es))[k] == item(Textual(es[k]))
  {
    TextualAt(es, k);
  }

  lemma EntryOfKind(kind: Kind, es: seq<RawEntry>, k: nat)
    requires Fits(kind, es) && k < |es|
    ensures es[k].KindOf() == kind
  {
    assert es[k] in es;
  }

  /** What an entry of a characteristic response puts into the list and into the database. */
  lemma ChrcsListFromWire(es: seq<RawEntry>, k: nat)
    requires Fits(Characteristic, es) && k < |es|
    ensures es[k].CharacteristicEntry? && Items(ChrcItem, TextualAll(es))[k] ==
            (es[k].valueHdl as int, UuidText(es[k].uuid))
    ensures AttrOf(Textual(es[k])) ==
            DbAttr.GattCharacteristic(es[k].handle, 1, UuidText(es[k].uuid), 0, es[k].props, es[k].valueHdl)
  {
    EntryOfKind(Characteristic, es, k);
    ItemAt(ChrcItem, es, k);
  }

  /** What an entry of a descriptor response puts into the list and into the database. */
  lemma DescsListFromWire(es: seq<RawEntry>, k: nat)
    requires Fits(Descriptor, es) && k < |es|
    ensures es[k].DescriptorEntry? && Items(DescItem, TextualAll(es))[k] == (es[k].handle as int, UuidText(es[k].uuid))
    ensures AttrOf(Textual(es[k])) ==
            GattCharacteristicDescriptor(es[k].handle, 1, UuidText(es[k].uuid), 0, None)
  {
    EntryOfKind(Descriptor, es, k);
    ItemAt(DescItem, es, k);
  }

  /** What an entry of a service response puts into the list and into the database. */
  lemma ServicesListFromWire(es: seq<RawEntry>, k: nat)
    requires Fits(Kind.Service, es) && k < |es|
    ensures es[k].ServiceEntry? && Items(ServiceItem, TextualAll(es))[k] ==
            (es[k].startHdl as int, es[k].endHdl as int, UuidText(es[k].uuid))
    ensures AttrOf(Textual(es[k])) ==
            GattPrimary(es[k].startHdl, 1, UuidText(es[k].uuid), 0, Some(es[k].endHdl as int))
  {
    EntryOfKind(Kind.Service, es, k);
    ItemAt(ServiceItem, es, k);
  }

  /**
   What a characteristic response leaves, from its bytes: the list has the value handle and the UUID's text of
   each entry in order, and the database at each handle the last entry with that declaration handle, with its
   properties and value handle; other handles are as before.
   */
  lemma ChrcsFromWire(before: View<Pair>, header: seq<byte>, es: seq<RawEntry>)
    requires |header| == 8 && Fits(Characteristic, es) && AllUuids(es) && es != []
    ensures forall k | 0 <= k < |es| :: es[k].CharacteristicEntry?
    ensures var v := Last(before, ChrcViews(before, header + EncodeResponse(Characteristic, es)));
            && v.cnt == Some(|es|) && |v.list| == |es|
            && (forall k | 0 <= k < |es| :: v.list[k] == (es[k].valueHdl as int, UuidText(es[k].uuid)))
            && (forall k | 0 <= k < |es| && NoLater(es, k) ::
                  Lookup(v.db, DeclHdl(es[k])) == Some(
                    DbAttr.GattCharacteristic(es[k].handle, 1, UuidText(es[k].uuid), 0, es[k].props, es[k].valueHdl)))
            && (forall h | (forall k | 0 <= k < |es| :: DeclHdl(es[k]) as int != h) ::
                  Lookup(v.db, h) == Lookup(before.db, h))
  {
    EntriesFromWire(Characteristic, header, es);
    ChrcsDecoded(before, header + EncodeResponse(Characteristic, es));
    StoredFromWire(before.db, es);
    forall k | 0 <= k < |es|
      ensures es[k].CharacteristicEntry? && Items(ChrcItem, TextualAll(es))[k] ==
              (es[k].valueHdl as int, UuidText(es[k].uuid))
      ensures AttrOf(Textual(es[k])) ==
              DbAttr.GattCharacteristic(es[k].handle, 1, UuidText(es[k].uuid), 0, es[k].props, es[k].valueHdl)
    {
      ChrcsListFromWire(es, k);
    }
  }

  /**
   The same of a descriptor response, whose list has the handle and the UUID's text.
   */
  lemma DescsFromWire(before: View<Pair>, header: seq<byte>, es: seq<RawEntry>)
    requires |header| == 8 && Fits(Descriptor, es) && AllUuids(es) && es != []
    ensures forall k | 0 <= k < |es| :: es[k].DescriptorEntry?
    ensures var v := Last(before, DescViews(before, header + EncodeResponse(Descriptor, es)));
            && v.cnt == Some(|es|) && |v.list| == |es|
            && (forall k | 0 <= k < |es| :: v.list[k] == (es[k].handle as int, UuidText(es[k].uuid)))
            && (forall k | 0 <= k < |es| && NoLater(es, k) ::
                  Lookup(v.db, DeclHdl(es[k])) == Some(
                    GattCharacteristicDescriptor(es[k].handle, 1, UuidText(es[k].uuid), 0, None)))
            && (forall h | (forall k | 0 <= k < |es| :: DeclHdl(es[k]) as int != h) ::
                  Lookup(v.db, h) == Lookup(before.db, h))
  {
    EntriesFromWire(Descriptor, header, es);
    DescsDecoded(before, header + EncodeResponse(Descriptor, es));
    StoredFromWire(before.db, es);
    forall k | 0 <= k < |es|
      ensures es[k].DescriptorEntry? && Items(DescItem, TextualAll(es))[k] ==
              (es[k].handle as int, UuidText(es[k].uuid))
      ensures AttrOf(Textual(es[k])) ==
              GattCharacteristicDescriptor(es[k].handle, 1, UuidText(es[k].uuid), 0, None)
    {
      DescsListFromWire(es, k);
    }
  }

  /**
   The same of a service response, whose list has both handles and the UUID's text.
   */
  lemma ServicesFromWire(before: View<Service>, header: seq<byte>, es: seq<RawEntry>)
    requires |header| == 8 && Fits(Kind.Service, es) && AllUuids(es) && es != []
    ensures forall k | 0 <= k < |es| :: es[k].ServiceEntry?
    ensures var v := Last(before, ServiceViews(before, header + EncodeResponse(Kind.Service, es)));
            && v.cnt == Some(|es|) && |v.list| == |es|
            && (forall k | 0 <= k < |es| ::
                  v.list[k] == (es[k].startHdl as int, es[k].endHdl as int, UuidText(es[k].uuid)))
            && (forall k | 0 <= k < |es| && NoLater(es, k) ::
                  Lookup(v.db, DeclHdl(es[k])) == Some(
                    GattPrimary(es[k].startHdl, 1, UuidText(es[k].uuid), 0, Some(es[k].endHdl as int))))
            && (forall h | (forall k | 0 <= k < |es| :: DeclHdl(es[k]) as int != h) ::
                  Lookup(v.db, h) == Lookup(before.db, h))
  {
    EntriesFromWire(Kind.Service, header, es);
    ServicesDecoded(before, header + EncodeResponse(Kind.Service, es));
    StoredFromWire(before.db, es);
    forall k | 0 <= k < |es|
      ensures es[k].ServiceEntry? && Items(ServiceItem, TextualAll(es))[k] ==
              (es[k].startHdl as int, es[k].endHdl as int, UuidText(es[k].uuid))
      ensures AttrOf(Textual(es[k])) ==
              GattPrimary(es[k].startHdl, 1, UuidText(es[k].uuid), 0, Some(es[k].endHdl as int))
    {
      ServicesListFromWire(es, k);
    }
  }

  // The objects

  class GattCl {
    const db: GattDB
    var primSvcsCnt: Option<int>
    var primSvcs: seq<Service>
    var chrcsCnt: Option<int>
    var chrcs: seq<Pair>
    var dscsCnt: Option<int>
    var dscs: seq<Pair>
    // What the other threads could see of each procedure so far.
    ghost var primSeen: seq<View<Service>>
    ghost var chrcsSeen: seq<View<Pair>>
    ghost var dscsSeen: seq<View<Pair>>

    constructor ()
      ensures fresh(db) && db.db == map[]
      ensures primSvcsCnt == chrcsCnt == dscsCnt == None && primSvcs == [] && chrcs == dscs == []
    {
      db := new GattDB();
      primSvcsCnt, primSvcs, chrcsCnt, chrcs, dscsCnt, dscs := None, [], None, [], None, [];
    }

    ghost function Services(): View<Service>
      reads this, db
    {
      View(primSvcsCnt, primSvcs, db.db)
    }

    ghost function Chrcs(): View<Pair>
      reads this, db
    {
      View(chrcsCnt, chrcs, db.db)
    }

    ghost function Dscs(): View<Pair>
      reads this, db
    {
      View(dscsCnt, dscs, db.db)
    }

    /** The resets of `gatt_cl_disc_all_chrc` and `gatt_cl_disc_chrc_uuid`. */
    method RequestChrcs()
      modifies this`chrcsCnt, this`chrcs, this`chrcsSeen
      ensures chrcsSeen == old(chrcsSeen) + RequestViews(old(Chrcs()))
      ensures Chrcs() == Last(old(Chrcs()), RequestViews(old(Chrcs())))
    {
      chrcsCnt := None;
      chrcsSeen := chrcsSeen + [Chrcs()];
      chrcs := [];
      chrcsSeen := chrcsSeen + [Chrcs()];
    }

    /** The resets of `gatt_cl_disc_all_desc`. */
    method RequestDscs()
      modifies this`dscsCnt, this`dscs, this`dscsSeen
      ensures dscsSeen == old(dscsSeen) + RequestViews(old(Dscs()))
      ensures Dscs() == Last(old(Dscs()), RequestViews(old(Dscs())))
    {
      dscsCnt := None;
      dscsSeen := dscsSeen + [Dscs()];
      dscs := [];
      dscsSeen := dscsSeen + [Dscs()];
    }

    /** `gatt_cl_disc_all_chrc_rsp_ev_` and `gatt_cl_disc_chrc_uuid_rsp_ev_`. */
    method ChrcsRsp(data: seq<byte>) returns (r: Result<()>)
      modifies this`chrcsCnt, this`chrcs, this`chrcsSeen, db
      ensures chrcsSeen == old(chrcsSeen) + ChrcViews(old(Chrcs()), data)
      ensures Chrcs() == Last(old(Chrcs()), ChrcViews(old(Chrcs()), data))
      ensures r.Ok? <==> Entries(Characteristic, data).Ok?
    {
      if |data| < 9 {
        return Err(StructError);
      }
      OpenChrcs(data[8]);
      ChrcsNotFilled(old(Chrcs()), data);
      if data[8] == 0 {
        return Ok(());
      }
      var es := GattClDecDiscRsp(data[8..], Characteristic);
      if es.Err? {
        return Err(es.error);
      }
      ChrcsDecoded(old(Chrcs()), data);
      FillAndStoreChrcs(es.value);
      Associative(old(chrcsSeen), Opening(old(Chrcs()), data[8]), FillThenStore(ChrcItem, old(db.db), es.value));
      return Ok(());
    }

    method FillAndStoreChrcs(es: seq<TextEntry>)
      requires chrcs == [] && chrcsCnt == Some(|es|)
      modifies this`chrcs, this`chrcsSeen, db
      ensures chrcsSeen == old(chrcsSeen) + FillThenStore(ChrcItem, old(db.db), es)
      ensures Chrcs() == View(Some(|es|), Items(ChrcItem, es), Stored(old(db.db), es, |es|))
    {
      FillChrcs(es);
      StoreChrcs(es);
    }

    method OpenChrcs(cnt: int)
      modifies this`chrcsCnt, this`chrcs, this`chrcsSeen
      ensures chrcsSeen == old(chrcsSeen) + Opening(old(Chrcs()), cnt)
      ensures Chrcs() == View(Some(cnt), [], db.db)
    {
      chrcs := [];
      chrcsSeen := chrcsSeen + [Chrcs()];
      chrcsCnt := Some(cnt);
      chrcsSeen := chrcsSeen + [Chrcs()];
    }

    method FillChrcs(es: seq<TextEntry>)
      requires chrcs == [] && chrcsCnt == Some(|es|)
      modifies this`chrcs, this`chrcsSeen
      ensures chrcs == Items(ChrcItem, es)
      ensures chrcsSeen == old(chrcsSeen) + Filling(ChrcItem, db.db, es, |es|)
    {
      for i := 0 to |es|
        invariant chrcs == Items(ChrcItem, es)[..i]
        invariant chrcsSeen == old(chrcsSeen) + Filling(ChrcItem, db.db, es, i)
      {
        assert Items(ChrcItem, es)[..i + 1] == Items(ChrcItem, es)[..i] + [ChrcItem(es[i])];
        chrcs := chrcs + [ChrcItem(es[i])];
        chrcsSeen := chrcsSeen + [Chrcs()];
        assert Filling(ChrcItem, db.db, es, i + 1) == Filling(ChrcItem, db.db, es, i) + [Chrcs()];
      }
    }

    method StoreChrcs(es: seq<TextEntry>)
      requires chrcs == Items(ChrcItem, es) && chrcsCnt == Some(|es|)
      modifies db, this`chrcsSeen
      ensures db.db == Stored(old(db.db), es, |es|)
      ensures chrcsSeen == old(chrcsSeen) + Storing(ChrcItem, old(db.db), es, |es|)
    {
      ghost var start := db.db;
      for i := 0 to |es|
        invariant db.db == Stored(start, es, i)
        invariant chrcsSeen == old(chrcsSeen) + Storing(ChrcItem, start, es, i)
      {
        var attr := AttrOf(es[i]);
        db.AttrAdd(attr.handle, attr);
        chrcsSeen := chrcsSeen + [Chrcs()];
        assert Storing(ChrcItem, start, es, i + 1) == Storing(ChrcItem, start, es, i) + [Chrcs()];
      }
    }

    /** `gatt_cl_disc_all_desc_rsp_ev_`, which empties the list and sets the count a second time. */
    method DscsRsp(data: seq<byte>) returns (r: Result<()>)
      modifies this`dscsCnt, this`dscs, this`dscsSeen, db
      ensures dscsSeen == old(dscsSeen) + DescViews(old(Dscs()), data)
      ensures Dscs() == Last(old(Dscs()), DescViews(old(Dscs()), data))
      ensures r.Ok? <==> Entries(Descriptor, data).Ok?
    {
      if |data| < 9 {
        return Err(StructError);
      }
      OpenDscs(data[8]);
      DescsNotFilled(old(Dscs()), data);
      if data[8] == 0 {
        return Ok(());
      }
      var es := GattClDecDiscRsp(data[8..], Descriptor);
      if es.Err? {
        return Err(es.error);
      }
      DescsDecoded(old(Dscs()), data);
      RefillDscs(es.value);
      Associative(old(dscsSeen), Opening(old(Dscs()), data[8]), DescRounds(old(db.db), es.value));
      return Ok(());
    }

    method OpenDscs(cnt: int)
      modifies this`dscsCnt, this`dscs, this`dscsSeen
      ensures dscsSeen == old(dscsSeen) + Opening(old(Dscs()), cnt)
      ensures Dscs() == View(Some(cnt), [], db.db)
    {
      dscs := [];
      dscsSeen := dscsSeen + [Dscs()];
      dscsCnt := Some(cnt);
      dscsSeen := dscsSeen + [Dscs()];
    }

    method RefillDscs(es: seq<TextEntry>)
      requires es != [] && dscs == [] && dscsCnt == Some(|es|)
      modifies this`dscsCnt, this`dscs, this`dscsSeen, db
      ensures dscsSeen == old(dscsSeen) + DescRounds(old(db.db), es)
      ensures Dscs() == View(Some(|es|), Items(DescItem, es), Stored(old(db.db), es, |es|))
    {
      ghost var seen, again := dscsSeen, Opening(Dscs(), |es|);
      OpenDscs(|es|);
      FillAndStoreDscs(es);
      assert seen + again + FillAndStore(DescItem, old(db.db), es) ==
          seen + (again + FillAndStore(DescItem, old(db.db), es));
    }

    method FillAndStoreDscs(es: seq<TextEntry>)
      requires dscs == [] && dscsCnt == Some(|es|)
      modifies this`dscs, this`dscsSeen, db
      ensures dscsSeen == old(dscsSeen) + FillAndStore(DescItem, old(db.db), es)
      ensures Dscs() == View(Some(|es|), Items(DescItem, es), Stored(old(db.db), es, |es|))
    {
      ghost var start := db.db;
      for i := 0 to |es|
        invariant Dscs() == View(Some(|es|), Items(DescItem, es)[..i], Stored(start, es, i))
        invariant dscsSeen == old(dscsSeen) + Weaving(DescItem, start, es, i)
      {
        WeavingRound(DescItem, start, es, i);
        dscs := dscs + [DescItem(es[i])];
        dscsSeen := dscsSeen + [Dscs()];
        var attr := AttrOf(es[i]);
        db.AttrAdd(attr.handle, attr);
        dscsSeen := dscsSeen + [Dscs()];
        assert Items(DescItem, es)[..i + 1] == dscs;
      }
      assert Items(DescItem, es)[..|es|] == Items(DescItem, es);
    }

    /** `gatt_cl_disc_prim_uuid_rsp_ev_`. */
    method PrimSvcsRsp(data: seq<byte>) returns (r: Result<()>)
      modifies this`primSvcsCnt, this`primSvcs, this`primSeen, db
      ensures primSeen == old(primSeen) + ServiceViews(old(Services()), data)
      ensures Services() == Last(old(Services()), ServiceViews(old(Services()), data))
      ensures r.Ok? <==> Entries(Kind.Service, data).Ok?
    {
      if |data| < 9 {
        return Err(StructError);
      }
      OpenPrimSvcs(data[8]);
      ServicesNotFilled(old(Services()), data);
      if data[8] == 0 {
        return Ok(());
      }
      var es := GattClDecDiscRsp(data[8..], Kind.Service);
      if es.Err? {
        return Err(es.error);
      }
      ServicesDecoded(old(Services()), data);
      FillAndStorePrimSvcs(es.value);
      Associative(old(primSeen), Opening(old(Services()), data[8]), FillAndStore(ServiceItem, old(db.db), es.value));
      return Ok(());
    }

    method OpenPrimSvcs(cnt: int)
      modifies this`primSvcsCnt, this`primSvcs, this`primSeen
      ensures primSeen == old(primSeen) + Opening(old(Services()), cnt)
      ensures Services() == View(Some(cnt), [], db.db)
    {
      primSvcs := [];
      primSeen := primSeen + [Services()];
      primSvcsCnt := Some(cnt);
      primSeen := primSeen + [Services()];
    }

    method FillAndStorePrimSvcs(es: seq<TextEntry>)
      requires primSvcs == [] && primSvcsCnt == Some(|es|)
      modifies this`primSvcs, this`primSeen, db
      ensures primSeen == old(primSeen) + FillAndStore(ServiceItem, old(db.db), es)
      ensures Services() == View(Some(|es|), Items(ServiceItem, es), Stored(old(db.db), es, |es|))
    {
      ghost var start := db.db;
      for i := 0 to |es|
        invariant Services() == View(Some(|es|), Items(ServiceItem, es)[..i], Stored(start, es, i))
        invariant primSeen == old(primSeen) + Weaving(ServiceItem, start, es, i)
      {
        WeavingRound(ServiceItem, start, es, i);
        primSvcs := primSvcs + [ServiceItem(es[i])];
        primSeen := primSeen + [Services()];
        var attr := AttrOf(es[i]);
        db.AttrAdd(attr.handle, attr);
        primSeen := primSeen + [Services()];
        assert Items(ServiceItem, es)[..i + 1] == primSvcs;
      }
      assert Items(ServiceItem, es)[..|es|] == Items(ServiceItem, es);
    }
  }
}
