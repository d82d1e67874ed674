/**
 The receiver thread inside one event, test threads that register listeners, and a clear, interleaved
 between the single steps of `BTPEventHandler` (pybtp/btp.py). Lists are objects with an identity: a
 thread that looked one up goes on using it after another one took its place.
 */
module GapEvents {
  import opened Bytes
  import opened Listeners
  import opened Gaps

  type Pred = Option<Args -> bool>
  type Ids = seq<nat>

  datatype Listener = Listener(key: Key, pred: Pred)

  /** A list object; the key it was made for is history. */
  datatype PyList = PyList(key: Key, ids: Ids)

  /** A release of a listener, with what it got; nothing from a clear. */
  datatype Release = Release(id: nat, key: Key, args: Option<Args>)

  /** Where the receiver thread is inside `__call__`. It ends when a callback or a predicate raises. */
  datatype Phase =
    | Idle
    | Dead
    | Called(key: Key, args: Args)
    | Verifying(key: Key, args: Args, list: nat, next: nat, removed: set<nat>)
    | Collecting(key: Key, args: Args, list: nat, removed: set<nat>)
    | WritingBack(key: Key, args: Args, rest: Ids, removed: set<nat>)
    | Failed(key: Key, args: Args, removed: set<nat>)

  /**
   Listeners are numbered as they are made. dict says which list object is stored under a key, pending
   which one a registration looked up and has not appended to yet. The log holds all releases; late is
   history only: the listeners that were appended to a list nobody will look at.
   */
  datatype State = State(
    conns: set<BleAddress>,
    made: seq<Listener>,
    lists: seq<PyList>,
    dict: map<Key, nat>,
    pending: map<nat, nat>,
    phase: Phase,
    log: seq<Release>,
    late: set<nat>)

  datatype Label =
    | Lookup(listener: Listener)   // wait_for_event up to `self.listeners[svc_id][op]`
    | Append(id: nat)              // `.append(listener)`
    | Receive(key: Key, data: seq<byte>, other: Result<seq<byte>>)  // the callback runs
    | Fetch                        // `listeners = self.listeners[hdr.svc_id][hdr.op]`
    | VerifyNext                   // one listener is verified, and released if it wants the event
    | VerifyRaises                 // its predicate raises instead
    | LoopDone
    | Collect(rest: Ids)           // `list(set(listeners) - set(to_remove))`, in any order
    | WriteBack
    | ClearAll(order: Ids)         // clear_listeners, in any order

  const INIT := State({}, [], [], map[], map[], Idle, [], {})

  function Members(ids: Ids): set<nat> {
    set i | i in ids
  }

  function IdsAt(s: State, list: nat): Ids {
    IdsIn(s.lists, list)
  }

  function IdsIn(lists: seq<PyList>, list: nat): Ids {
    if list < |lists| then lists[list].ids else []
  }

  /** The listeners in the list that is stored under the key. */
  function Listed(s: State, key: Key): Ids {
    if key in s.dict then IdsAt(s, s.dict[key]) else []
  }

  function AllListed(s: State): set<nat> {
    AllIn(s.dict, s.lists)
  }

  function AllIn(dict: map<Key, nat>, lists: seq<PyList>): set<nat> {
    set k, i | k in dict && i in IdsIn(lists, dict[k]) :: i
  }

  function KeyOf(s: State, i: nat): Key {
    if i < |s.made| then s.made[i].key else (0, 0)
  }

  /** What the callback for an event does; those of other events return anything or raise. */
  function EffectOf(conns: set<BleAddress>, key: Key, data: seq<byte>, other: Result<seq<byte>>): Effect {
    if key == CONNECTED then ConnectedEffect(conns, data)
    else if key == DISCONNECTED then DisconnectedEffect(conns, data)
    else Effect(conns, if other.Ok? then Ok(Else(other.value)) else Err(other.error))
  }

  predicate Enabled(s: State, l: Label) {
    match l
    case Lookup(_) => true
    case Append(i) => i in s.pending
    case Receive(_, _, _) => s.phase.Idle?
    case Fetch => s.phase.Called?
    case VerifyNext => s.phase.Verifying? && s.phase.next < |IdsAt(s, s.phase.list)|
    case VerifyRaises =>
      && s.phase.Verifying? && s.phase.next < |IdsAt(s, s.phase.list)|
      && var i := IdsAt(s, s.phase.list)[s.phase.next]; i < |s.made| && s.made[i].pred.Some?
    case LoopDone => s.phase.Verifying? && s.phase.next >= |IdsAt(s, s.phase.list)|
    case Collect(rest) =>
      s.phase.Collecting? && NoDup(rest) && Members(rest) == Members(IdsAt(s, s.phase.list)) - s.phase.removed
    case WriteBack => s.phase.WritingBack?
    case ClearAll(order) => NoDup(order) && Members(order) == AllListed(s)
  }

  /** The look-up in the nested defaultdicts, which stores a new list if there is none. */
  function WithList(s: State, key: Key): (t: State)
    ensures key in t.dict
  {
    if key in s.dict then s
    else s.(lists := s.lists + [PyList(key, [])], dict := s.dict[key := |s.lists|])
  }

  /** The list object whose members the handler will keep: that of the event being delivered until it is collected. */
  function Target(s: State, key: Key): Option<nat> {
    var stored := if key in s.dict then Some(s.dict[key]) else None;
    match s.phase
    case Verifying(k, _, list, _, _) => if k == key then Some(list) else stored
    case Collecting(k, _, list, _) => if k == key then Some(list) else stored
    case WritingBack(k, _, _, _) => if k == key then None else stored
    case _ => stored
  }

  function After(s: State, l: Label): State
    requires Enabled(s, l)
  {
    match l
    case Lookup(n) =>
      var t := WithList(s, n.key);
      t.(made := t.made + [n], pending := t.pending[|t.made| := t.dict[n.key]])
    case Append(i) => AfterAppend(s, i)
    case Receive(key, data, other) =>
      var e := EffectOf(s.conns, key, data, other);
      s.(conns := e.conns, phase := if e.ret.Ok? then Called(key, e.ret.value) else Dead)
    case Fetch =>
      var t := WithList(s, s.phase.key);
      t.(phase := Verifying(s.phase.key, s.phase.args, t.dict[s.phase.key], 0, {}))
    case VerifyNext => AfterVerify(s)
    case VerifyRaises => s.(phase := Failed(s.phase.key, s.phase.args, s.phase.removed))
    case LoopDone => s.(phase := Collecting(s.phase.key, s.phase.args, s.phase.list, s.phase.removed))
    case Collect(rest) => s.(phase := WritingBack(s.phase.key, s.phase.args, rest, s.phase.removed))
    case WriteBack =>
      s.(lists := s.lists + [PyList(s.phase.key, s.phase.rest)],
         dict := s.dict[s.phase.key := |s.lists|],
         phase := Idle)
    case ClearAll(order) =>
      s.(dict := map[], log := s.log + Clearing(s, order))
  }

  function Clearing(s: State, order: Ids): seq<Release> {
    seq(|order|, k requires 0 <= k < |order| => Release(order[k], KeyOf(s, order[k]), None))
  }

  function AfterAppend(s: State, i: nat): State
    requires i in s.pending
  {
    var list := s.pending[i];
    s.(lists := if list < |s.lists| then s.lists[list := s.lists[list].(ids := s.lists[list].ids + [i])] else s.lists,
       pending := s.pending - {i},
       late := if Target(s, KeyOf(s, i)) == Some(list) then s.late else s.late + {i})
  }

  function AfterVerify(s: State): State
    requires s.phase.Verifying? && s.phase.next < |IdsAt(s, s.phase.list)|
  {
    var i := IdsAt(s, s.phase.list)[s.phase.next];
    if i < |s.made| && Wants(s.made[i].pred, s.phase.args) then
      s.(phase := s.phase.(next := s.phase.next + 1, removed := s.phase.removed + {i}),
         log := s.log + [Release(i, s.phase.key, Some(s.phase.args))])
    else
      s.(phase := s.phase.(next := s.phase.next + 1))
  }

  predicate Runs(s: State, ls: seq<Label>)
    decreases |ls|
  {
    ls == [] || (Enabled(s, ls[0]) && Runs(After(s, ls[0]), ls[1..]))
  }

  function End(s: State, ls: seq<Label>): State
    requires Runs(s, ls)
    decreases |ls|
  {
    if ls == [] then s else End(After(s, ls[0]), ls[1..])
  }

  /**
   Clears come when the receiver is not inside a call with a list in its hands. `stop` clears after it has
   joined the receiver thread, so in Idle or Dead; for Failed see EventRuns.ClearAtStop.
   */
  predicate Polite(s: State, l: Label) {
    l.ClearAll? ==> s.phase.Idle? || s.phase.Dead? || s.phase.Called?
  }

  predicate PoliteRun(s: State, ls: seq<Label>)
    decreases |ls|
  {
    ls == [] || (Enabled(s, ls[0]) && Polite(s, ls[0]) && PoliteRun(After(s, ls[0]), ls[1..]))
  }

  lemma {:induction false} PoliteRuns(s: State, ls: seq<Label>)
    requires PoliteRun(s, ls)
    ensures Runs(s, ls)
    decreases |ls|
  {
    if ls != [] {
      PoliteRuns(After(s, ls[0]), ls[1..]);
    }
  }

  // ---- What every step keeps ----

  function ReleasedIn(log: seq<Release>): set<nat> {
    set e | e in log :: e.id
  }

  predicate LogOnce(log: seq<Release>) {
    forall i, j | 0 <= i < j < |log| :: log[i].id != log[j].id
  }

  function RemovedOf(s: State): set<nat> {
    RemovedIn(s.phase)
  }

  function RemovedIn(phase: Phase): set<nat> {
    match phase
    case Verifying(_, _, _, _, removed) => removed
    case Collecting(_, _, _, removed) => removed
    case WritingBack(_, _, _, removed) => removed
    case Failed(_, _, removed) => removed
    case _ => {}
  }

  /** The listeners that the event being delivered has in its hands. */
  function Local(s: State): set<nat> {
    match s.phase
    case Verifying(_, _, list, _, _) => Members(IdsAt(s, list))
    case Collecting(_, _, list, _) => Members(IdsAt(s, list))
    case WritingBack(_, _, rest, _) => Members(rest)
    case _ => {}
  }

  predicate ListIsRight(s: State, p: PyList) {
    NoDup(p.ids) && forall i <- p.ids :: i < |s.made| && s.made[i].key == p.key && i !in s.pending
  }

  ghost predicate HeapIsRight(s: State) {
    && (forall l {:trigger s.lists[l]} | 0 <= l < |s.lists| :: ListIsRight(s, s.lists[l]))
    && (forall k <- s.dict :: s.dict[k] < |s.lists| && s.lists[s.dict[k]].key == k)
    && (forall i <- s.pending ::
          i < |s.made| && s.pending[i] < |s.lists| && s.lists[s.pending[i]].key == s.made[i].key &&
              i !in ReleasedIn(s.log))
  }

  /** The releases are of listeners of the event's key that wanted what they got. */
  predicate LogIsRight(s: State) {
    forall e <- s.log :: e.id < |s.made| && s.made[e.id].key == e.key &&
        (e.args.Some? ==> Wants(s.made[e.id].pred, e.args.value))
  }

  predicate PhaseIsRight(s: State) {
    && RemovedIn(s.phase) <= ReleasedIn(s.log)
    && (forall i <- RemovedIn(s.phase) :: i < |s.made| && s.made[i].key == s.phase.key)
    && match s.phase
       case Verifying(k, _, list, next, removed) =>
         list < |s.lists| && s.lists[list].key == k && next <= |s.lists[list].ids| &&
             removed <= Members(s.lists[list].ids[..next])
       case Collecting(k, _, list, removed) =>
         list < |s.lists| && s.lists[list].key == k && removed <= Members(s.lists[list].ids)
       case WritingBack(k, _, rest, removed) => ListIsRight(s, PyList(k, rest)) && Members(rest) !! removed
       case _ => true
  }

  ghost predicate Sound(s: State) {
    HeapIsRight(s) && LogIsRight(s) && PhaseIsRight(s)
  }

  /** A new list changes nothing in what is listed. */
  lemma WithListLists(s: State, key: Key)
    requires HeapIsRight(s)
    ensures var t := WithList(s, key);
            && AllListed(t) == AllListed(s) && Local(t) == Local(s)
            && (forall l | 0 <= l < |s.lists| :: l < |t.lists| && t.lists[l] == s.lists[l])
            && (forall k :: Listed(t, k) == Listed(s, k))
  {
    var t := WithList(s, key);
    if key !in s.dict {
      forall i ensures i in AllListed(t) <==> i in AllListed(s) {
        if i in AllListed(t) {
          var k :| k in t.dict && i in IdsIn(t.lists, t.dict[k]);
          assert k in s.dict && i in IdsIn(s.lists, s.dict[k]);
        }
        if i in AllListed(s) {
          var k :| k in s.dict && i in IdsIn(s.lists, s.dict[k]);
          assert i in IdsIn(t.lists, t.dict[k]);
        }
      }
    }
  }

  lemma WithListKeeps(s: State, key: Key)
    requires Sound(s)
    ensures var t := WithList(s, key);
            && Sound(t) && AllListed(t) == AllListed(s) && Local(t) == Local(s)
            && t.dict[key] < |t.lists| && t.lists[t.dict[key]].key == key
            && forall k :: Listed(t, k) == Listed(s, k)
  {
    WithListLists(s, key);
    var t := WithList(s, key);
    forall l | 0 <= l < |t.lists| ensures ListIsRight(t, t.lists[l]) {
      assert l < |s.lists| ==> ListIsRight(s, s.lists[l]);
    }
    assert t.phase.WritingBack? ==> ListIsRight(s, PyList(t.phase.key, t.phase.rest));
  }

  lemma LookupIsSound(s: State, n: Listener)
    requires Sound(s)
    ensures Sound(After(s, Lookup(n)))
  {
    WithListKeeps(s, n.key);
    var u := WithList(s, n.key);
    var t := After(s, Lookup(n));
    forall l | 0 <= l < |t.lists| ensures ListIsRight(t, t.lists[l]) {
      assert ListIsRight(u, u.lists[l]);
    }
    assert t.phase.WritingBack? ==> ListIsRight(u, PyList(t.phase.key, t.phase.rest));
  }

  lemma AppendIsSound(s: State, i: nat)
    requires Sound(s) && i in s.pending
    ensures Sound(After(s, Append(i)))
  {
    var t := After(s, Append(i));
    var list := s.pending[i];
    assert ListIsRight(s, s.lists[list]);
    forall l | 0 <= l < |t.lists| ensures ListIsRight(t, t.lists[l]) {
      assert ListIsRight(s, s.lists[l]);
    }
    if t.phase.Verifying? {
      assert t.lists[t.phase.list].ids[..t.phase.next] == s.lists[t.phase.list].ids[..t.phase.next];
    }
    if t.phase.Collecting? {
      assert Members(s.lists[t.phase.list].ids) <= Members(t.lists[t.phase.list].ids);
    }
    assert t.phase.WritingBack? ==> ListIsRight(s, PyList(t.phase.key, t.phase.rest));
  }

  lemma ReleasedJoin(a: seq<Release>, b: seq<Release>)
    ensures ReleasedIn(a + b) == ReleasedIn(a) + ReleasedIn(b)
  {
    assert forall e :: e in a + b <==> e in a || e in b;
  }

  lemma VerifyIsSound(s: State)
    requires Sound(s) && Enabled(s, VerifyNext)
    ensures Sound(After(s, VerifyNext))
  {
    var t := After(s, VerifyNext);
    var ids, next := s.lists[s.phase.list].ids, s.phase.next;
    assert ListIsRight(s, s.lists[s.phase.list]);
    assert ids[..next + 1] == ids[..next] + [ids[next]];
    forall l | 0 <= l < |t.lists| ensures ListIsRight(t, t.lists[l]) {
      assert ListIsRight(s, s.lists[l]);
    }
    assert ids[next] in ids;
    if t.log != s.log {
      var r := t.log[|s.log|];
      ReleasedJoin(s.log, [r]);
      assert ReleasedIn([r]) == {ids[next]};
    }
  }

  lemma WriteBackIsSound(s: State)
    requires Sound(s) && Enabled(s, WriteBack)
    ensures Sound(After(s, WriteBack))
  {
    var t := After(s, WriteBack);
    forall l | 0 <= l < |t.lists| ensures ListIsRight(t, t.lists[l]) {
      assert l < |s.lists| ==> ListIsRight(s, s.lists[l]);
    }
  }

  lemma ClearIsSound(s: State, order: Ids)
    requires Sound(s) && Enabled(s, ClearAll(order))
    ensures Sound(After(s, ClearAll(order)))
    ensures ReleasedIn(After(s, ClearAll(order)).log) == ReleasedIn(s.log) + AllListed(s)
  {
    var t := After(s, ClearAll(order));
    forall l | 0 <= l < |t.lists| ensures ListIsRight(t, t.lists[l]) {
      assert ListIsRight(s, s.lists[l]);
    }
    assert t.phase.WritingBack? ==> ListIsRight(s, PyList(t.phase.key, t.phase.rest));
    ListedAreMade(s);
    ClearReleases(s, order);
    forall e <- t.log ensures e.id < |t.made| && t.made[e.id].key == e.key &&
        (e.args.Some? ==> Wants(t.made[e.id].pred, e.args.value)) {
      if e !in s.log {
        var k :| 0 <= k < |order| && e == Release(order[k], KeyOf(s, order[k]), None);
        assert order[k] in Members(order);
      }
    }
  }

  lemma ListedAreMade(s: State)
    requires Sound(s)
    ensures forall i <- AllListed(s) :: i < |s.made| && i !in s.pending
  {
    forall i <- AllListed(s) ensures i < |s.made| && i !in s.pending {
      var k :| k in s.dict && i in IdsAt(s, s.dict[k]);
      assert ListIsRight(s, s.lists[s.dict[k]]);
    }
  }

  lemma ClearingOnce(s: State, order: Ids)
    requires NoDup(order)
    ensures LogOnce(Clearing(s, order)) && ReleasedIn(Clearing(s, order)) == Members(order)
  {
    var more := Clearing(s, order);
    forall i <- order ensures i in ReleasedIn(more) {
      var k :| 0 <= k < |order| && order[k] == i;
      assert more[k] in more;
    }
  }

  lemma ClearReleases(s: State, order: Ids)
    requires Enabled(s, ClearAll(order))
    ensures ReleasedIn(After(s, ClearAll(order)).log) == ReleasedIn(s.log) + AllListed(s)
  {
    ClearingOnce(s, order);
    ReleasedJoin(s.log, Clearing(s, order));
  }

  lemma StepIsSound(s: State, l: Label)
    requires Sound(s) && Enabled(s, l)
    ensures Sound(After(s, l))
  {
    match l
    case Lookup(n) => LookupIsSound(s, n);
    case Append(i) => AppendIsSound(s, i);
    case Receive(_, _, _) => OtherIsSound(s, l);
    case Fetch =>
      WithListKeeps(s, s.phase.key);
      var u, t := WithList(s, s.phase.key), After(s, l);
      forall k | 0 <= k < |t.lists| ensures ListIsRight(t, t.lists[k]) {
        assert ListIsRight(u, u.lists[k]);
      }
    case VerifyNext => VerifyIsSound(s);
    case VerifyRaises => OtherIsSound(s, l);
    case LoopDone => OtherIsSound(s, l);
    case Collect(rest) => OtherIsSound(s, l);
    case WriteBack => WriteBackIsSound(s);
    case ClearAll(order) => ClearIsSound(s, order);
  }

  lemma {:induction false} RunIsSound(s: State, ls: seq<Label>)
    requires Sound(s) && Runs(s, ls)
    ensures Sound(End(s, ls))
    decreases |ls|
  {
    if ls != [] {
      StepIsSound(s, ls[0]);
      RunIsSound(After(s, ls[0]), ls[1..]);
    }
  }

  /**
   In every run, clears at any point and predicates that raise included: the predicate of a listener that was
   released with a value is true of that value, and the listener was registered under the event's key.
   */
  lemma ReleasedAsWanted(ls: seq<Label>, e: Release)
    requires Runs(INIT, ls) && e in End(INIT, ls).log && e.args.Some?
    ensures var made := End(INIT, ls).made;
            && e.id < |made| && made[e.id].key == e.key
            && (made[e.id].pred.Some? ==> made[e.id].pred.value(e.args.value))
  {
    RunIsSound(INIT, ls);
  }

  lemma OtherIsSound(s: State, l: Label)
    requires Sound(s) && Enabled(s, l) && (l.Receive? || l.VerifyRaises? || l.LoopDone? || l.Collect?)
    ensures Sound(After(s, l))
  {
    var t := After(s, l);
    forall k | 0 <= k < |t.lists| ensures ListIsRight(t, t.lists[k]) {
      assert ListIsRight(s, s.lists[k]);
    }
    if l.Collect? {
      assert ListIsRight(s, s.lists[s.phase.list]);
      forall i <- l.rest ensures i in s.lists[s.phase.list].ids {
        assert i in Members(l.rest);
      }
    }
  }

  // ---- At most one release ----

  /** No listener was released twice, and none that was released is where it could be released again. */
  predicate Once(s: State) {
    LogOnce(s.log) && (AllListed(s) + Local(s)) - RemovedOf(s) !! ReleasedIn(s.log)
  }

  /**
   The listeners that a clear now would let be released twice: they are in the lists, and they were
   released already or the event being delivered has them in its hands.
   */
  function Exposed(s: State): set<nat> {
    AllListed(s) * (ReleasedIn(s.log) + Local(s))
  }

  lemma AppendStaysOnce(s: State, i: nat)
    requires Sound(s) && Once(s) && i in s.pending
    ensures Once(After(s, Append(i)))
  {
    var t := After(s, Append(i));
    forall j <- AllListed(t) ensures j in AllListed(s) || j == i {
      var k :| k in t.dict && j in IdsIn(t.lists, t.dict[k]);
      assert k in s.dict && (j in IdsIn(s.lists, s.dict[k]) || j == i);
    }
    assert Local(t) <= Local(s) + {i};
  }

  lemma LogsJoin(a: seq<Release>, b: seq<Release>)
    requires LogOnce(a) && LogOnce(b) && ReleasedIn(a) !! ReleasedIn(b)
    ensures LogOnce(a + b)
  {
    forall i, j | 0 <= i < j < |a + b| ensures (a + b)[i].id != (a + b)[j].id {
      if i < |a| <= j {
        assert a[i] in a && a[i].id in ReleasedIn(a);
        assert b[j - |a|] in b && b[j - |a|].id in ReleasedIn(b);
      }
    }
  }

  /** The next listener has not been released. */
  lemma NextIsNew(s: State)
    requires Sound(s) && Once(s) && Enabled(s, VerifyNext)
    ensures IdsAt(s, s.phase.list)[s.phase.next] !in ReleasedIn(s.log)
  {
    var ids, next := s.lists[s.phase.list].ids, s.phase.next;
    assert ListIsRight(s, s.lists[s.phase.list]);
    assert ids[next] !in ids[..next];
    assert ids[next] in Local(s);
  }

  lemma VerifyStaysOnce(s: State)
    requires Sound(s) && Once(s) && Enabled(s, VerifyNext)
    ensures Once(After(s, VerifyNext))
  {
    var t := After(s, VerifyNext);
    NextIsNew(s);
    if t.log != s.log {
      var r := t.log[|s.log|];
      assert ReleasedIn([r]) == {r.id};
      LogsJoin(s.log, [r]);
      ReleasedJoin(s.log, [r]);
    }
  }

  lemma WriteBackStaysOnce(s: State)
    requires Sound(s) && Once(s) && Enabled(s, WriteBack)
    ensures Once(After(s, WriteBack))
  {
    var t := After(s, WriteBack);
    forall j <- AllListed(t) ensures j !in ReleasedIn(s.log) {
      var k :| k in t.dict && j in IdsIn(t.lists, t.dict[k]);
      if k == s.phase.key {
        assert j in s.phase.rest && j in Local(s);
      } else {
        assert ListIsRight(s, s.lists[s.dict[k]]);
        assert j in IdsIn(s.lists, s.dict[k]) && j in AllListed(s) && KeyOf(s, j) == k;
      }
    }
  }

  lemma ClearStaysOnce(s: State, order: Ids)
    requires Sound(s) && Once(s) && Enabled(s, ClearAll(order)) && Exposed(s) == {}
    ensures Once(After(s, ClearAll(order)))
  {
    var t := After(s, ClearAll(order));
    ClearingOnce(s, order);
    assert forall i <- AllListed(s) :: i !in Exposed(s);
    LogsJoin(s.log, Clearing(s, order));
    ReleasedJoin(s.log, Clearing(s, order));
    assert AllListed(t) == {};
  }

  lemma OtherStaysOnce(s: State, l: Label)
    requires Sound(s) && Once(s) && Enabled(s, l) && (l.Receive? || l.VerifyRaises? || l.LoopDone? || l.Collect?)
    ensures Once(After(s, l))
  {
  }

  lemma StepStaysOnce(s: State, l: Label)
    requires Sound(s) && Once(s) && Enabled(s, l) && (l.ClearAll? ==> Exposed(s) == {})
    ensures Once(After(s, l))
  {
    if l.Lookup? {
      WithListKeeps(s, l.listener.key);
      assert AllListed(After(s, l)) == AllListed(WithList(s, l.listener.key));
      assert Local(After(s, l)) == Local(s);
    } else if l.Append? {
      AppendStaysOnce(s, l.id);
    } else if l.Fetch? {
      FetchStaysOnce(s);
    } else if l.VerifyNext? {
      VerifyStaysOnce(s);
    } else if l.WriteBack? {
      WriteBackStaysOnce(s);
    } else if l.ClearAll? {
      ClearStaysOnce(s, l.order);
    } else {
      OtherStaysOnce(s, l);
    }
  }

  lemma FetchStaysOnce(s: State)
    requires Sound(s) && Once(s) && s.phase.Called?
    ensures Once(After(s, Fetch))
  {
    var u, t := WithList(s, s.phase.key), After(s, Fetch);
    WithListKeeps(s, s.phase.key);
    assert AllListed(t) == AllListed(u);
    assert Local(t) <= AllListed(u) by {
      assert Listed(u, s.phase.key) == u.lists[u.dict[s.phase.key]].ids;
    }
  }

  /** Between two events, nothing is exposed. */
  lemma PoliteIsHarmless(s: State, l: Label)
    requires Once(s) && Polite(s, l)
    ensures l.ClearAll? ==> Exposed(s) == {}
  {
  }

  lemma {:induction false} PoliteStaysOnce(s: State, ls: seq<Label>)
    requires Sound(s) && Once(s) && PoliteRun(s, ls)
    ensures Runs(s, ls) && Sound(End(s, ls)) && Once(End(s, ls))
    decreases |ls|
  {
    PoliteRuns(s, ls);
    if ls != [] {
      PoliteIsHarmless(s, ls[0]);
      StepIsSound(s, ls[0]);
      StepStaysOnce(s, ls[0]);
      PoliteStaysOnce(After(s, ls[0]), ls[1..]);
    }
  }

  /** Over all interleavings with clears between two events, each listener is released at most once. */
  lemma ReleasedAtMostOnce(ls: seq<Label>)
    requires PoliteRun(INIT, ls)
    ensures Runs(INIT, ls) && Sound(End(INIT, ls)) && Once(End(INIT, ls))
  {
    PoliteStaysOnce(INIT, ls);
  }

  // ---- Exactly when a clear lets a listener be released twice ----

  lemma Enumerate(x: set<nat>) returns (order: Ids)
    ensures NoDup(order) && Members(order) == x
  {
    if x == {} {
      order := [];
    } else {
      var i :| i in x;
      var rest := Enumerate(x - {i});
      assert i !in Members(rest);
      order := rest + [i];
      assert Members(order) == Members(rest) + {i};
    }
  }

  lemma TwiceStays(a: seq<Release>, b: seq<Release>)
    requires !LogOnce(a) || exists i :: i in ReleasedIn(a) && i in ReleasedIn(b)
    ensures !LogOnce(a + b)
  {
    if !LogOnce(a) {
      var i, j :| 0 <= i < j < |a| && a[i].id == a[j].id;
      assert (a + b)[i].id == (a + b)[j].id;
    } else {
      var x :| x in ReleasedIn(a) && x in ReleasedIn(b);
      var i :| 0 <= i < |a| && a[i].id == x;
      var j :| 0 <= j < |b| && b[j].id == x;
      assert (a + b)[i].id == (a + b)[|a| + j].id;
    }
  }

  lemma Cons(s: State, l: Label, b: seq<Label>)
    requires Enabled(s, l) && Polite(s, l) && PoliteRun(After(s, l), b)
    ensures PoliteRun(s, [l] + b) && Runs(After(s, l), b) && Runs(s, [l] + b) && End(s, [l] + b) == End(After(s, l), b)
  {
    assert ([l] + b)[1..] == b;
    PoliteRuns(s, [l] + b);
  }

  /** Between two events, a released listener is still in a list: the next clear releases it again. */
  lemma AgainByClear(s: State, i: nat) returns (b: seq<Label>)
    requires s.phase.Idle? && i in AllListed(s) && i in ReleasedIn(s.log)
    ensures PoliteRun(s, b) && Runs(s, b) && !LogOnce(End(s, b).log)
  {
    var order := Enumerate(AllListed(s));
    ClearingOnce(s, order);
    TwiceStays(s.log, Clearing(s, order));
    Cons(s, ClearAll(order), []);
    b := [ClearAll(order)] + [];
  }

  lemma AgainAfterWriteBack(s: State, i: nat) returns (b: seq<Label>)
    requires s.phase.WritingBack? && i in s.phase.rest && i in ReleasedIn(s.log)
    ensures PoliteRun(s, b) && Runs(s, b) && !LogOnce(End(s, b).log)
  {
    var t := After(s, WriteBack);
    assert i in IdsIn(t.lists, t.dict[s.phase.key]);
    assert i in AllListed(t);
    b := AgainByClear(t, i);
    Cons(s, WriteBack, b);
    b := [WriteBack] + b;
  }

  lemma AgainAfterCollecting(s: State, i: nat) returns (b: seq<Label>)
    requires s.phase.Collecting? && i in Local(s) - s.phase.removed && i in ReleasedIn(s.log)
    ensures PoliteRun(s, b) && Runs(s, b) && !LogOnce(End(s, b).log)
  {
    var rest := Enumerate(Local(s) - s.phase.removed);
    assert i in Members(rest);
    b := AgainAfterWriteBack(After(s, Collect(rest)), i);
    Cons(s, Collect(rest), b);
    b := [Collect(rest)] + b;
  }

  /** The loop over a list with a released listener releases it again, or keeps it for the next clear. */
  lemma AgainAfterVerifying(s: State, i: nat) returns (b: seq<Label>)
    requires s.phase.Verifying? && i in Local(s) - s.phase.removed && i in ReleasedIn(s.log)
    ensures PoliteRun(s, b) && Runs(s, b) && !LogOnce(End(s, b).log)
    decreases |IdsAt(s, s.phase.list)| - s.phase.next
  {
    if s.phase.next >= |IdsAt(s, s.phase.list)| {
      b := AgainAfterCollecting(After(s, LoopDone), i);
      Cons(s, LoopDone, b);
      b := [LoopDone] + b;
    } else {
      var t := After(s, VerifyNext);
      ReleasedJoin(s.log, t.log[|s.log|..]);
      assert t.log == s.log + t.log[|s.log|..];
      if i in t.phase.removed {
        var r := t.log[|s.log|];
        assert t.log == s.log + [r] && r in [r] && r.id == i;
        TwiceStays(s.log, [r]);
        b := [];
      } else {
        b := AgainAfterVerifying(t, i);
      }
      Cons(s, VerifyNext, b);
      b := [VerifyNext] + b;
    }
  }

  /** A clear that finds an exposed listener: some continuation, with no more such clears, releases one twice. */
  lemma ExposedIsReleasedTwice(s: State, order: Ids) returns (b: seq<Label>)
    requires Sound(s) && Enabled(s, ClearAll(order)) && Exposed(s) != {}
    ensures var t := After(s, ClearAll(order)); PoliteRun(t, b) && Runs(t, b) && !LogOnce(End(t, b).log)
  {
    var i :| i in Exposed(s);
    var t := After(s, ClearAll(order));
    ClearingOnce(s, order);
    ClearReleases(s, order);
    if i in ReleasedIn(s.log) {
      TwiceStays(s.log, Clearing(s, order));
      b := [];
    } else if s.phase.Verifying? {
      b := AgainAfterVerifying(t, i);
    } else if s.phase.Collecting? {
      b := AgainAfterCollecting(t, i);
    } else {
      b := AgainAfterWriteBack(t, i);
    }
  }

  predicate LogOnceAfter(s: State, b: seq<Label>) {
    Runs(s, b) ==> LogOnce(End(s, b).log)
  }

  /**
   The exact condition. Take any state between or inside events that clears between events lead to, and a
   clear then, wherever the receiver is: whatever follows, no listener is released twice, if and only if
   the clear finds no listener that was released already or that the receiver still has in its hands.
   */
  lemma ClearIsSafeExactly(ls: seq<Label>, order: Ids)
    requires PoliteRun(INIT, ls) && Runs(INIT, ls) && Enabled(End(INIT, ls), ClearAll(order))
    ensures var s := End(INIT, ls);
            (forall b | PoliteRun(After(s, ClearAll(order)), b) :: LogOnceAfter(After(s, ClearAll(order)), b)) <==>
                Exposed(s) == {}
  {
    ReleasedAtMostOnce(ls);
    var s := End(INIT, ls);
    var t := After(s, ClearAll(order));
    if Exposed(s) == {} {
      ClearIsSound(s, order);
      ClearStaysOnce(s, order);
      forall b | PoliteRun(t, b) ensures LogOnceAfter(t, b) {
        PoliteStaysOnce(t, b);
      }
    } else {
      var b := ExposedIsReleasedTwice(s, order);
      assert !LogOnceAfter(t, b);
    }
  }

  // ---- The listeners that wait ----

  /** What the list of the key holds once the present call, if there is one, is over. */
  function Held(s: State, key: Key): set<nat> {
    match s.phase
    case Verifying(k, _, list, _, removed) =>
      if k == key then Members(IdsAt(s, list)) - removed else Members(Listed(s, key))
    case Collecting(k, _, list, removed) =>
      if k == key then Members(IdsAt(s, list)) - removed else Members(Listed(s, key))
    case WritingBack(k, _, rest, _) => if k == key then Members(rest) else Members(Listed(s, key))
    case Failed(k, _, removed) => if k == key then Members(Listed(s, key)) - removed else Members(Listed(s, key))
    case _ => Members(Listed(s, key))
  }

  /** The registered listeners of the key that wait: not released, and not appended to a list that is out of use. */
  function Live(s: State, key: Key): set<nat> {
    set i | 0 <= i < |s.made| && s.made[i].key == key && i !in s.pending && i !in ReleasedIn(s.log) && i !in s.late
  }

  /** The list in the receiver's hands is the one that is stored. */
  predicate Attached(s: State) {
    match s.phase
    case Verifying(k, _, list, _, _) => k in s.dict && s.dict[k] == list
    case Collecting(k, _, list, _) => k in s.dict && s.dict[k] == list
    case WritingBack(k, _, rest, removed) =>
      Members(rest) + removed <= Members(Listed(s, k)) && Members(Listed(s, k)) <= Members(rest) + removed + s.late
    case Failed(k, _, removed) => removed <= Members(Listed(s, k))
    case _ => true
  }

  predicate LateIsRight(s: State) {
    s.late !! ReleasedIn(s.log) && forall i <- s.late :: i < |s.made| && i !in s.pending
  }

  ghost predicate HeldAreLive(s: State) {
    forall k :: Held(s, k) == Live(s, k)
  }

  ghost predicate Kept(s: State) {
    Attached(s) && LateIsRight(s) && HeldAreLive(s)
  }

  lemma LookupKeeps(s: State, n: Listener)
    requires Sound(s) && Kept(s)
    ensures Kept(After(s, Lookup(n)))
  {
    var t := After(s, Lookup(n));
    WithListLists(s, n.key);
    forall k ensures Held(t, k) == Live(t, k) {
      assert Held(s, k) == Live(s, k);
      assert Listed(t, k) == Listed(WithList(s, n.key), k);
      assert Live(t, k) == Live(s, k);
    }
  }

  lemma AppendHolds(s: State, i: nat, k: Key)
    requires Sound(s) && LateIsRight(s) && i in s.pending && Held(s, k) == Live(s, k)
    ensures Held(After(s, Append(i)), k) == Live(After(s, Append(i)), k)
  {
    var t := After(s, Append(i));
    var list, key := s.pending[i], s.made[i].key;
    var ids := s.lists[list].ids;
    assert Members(ids + [i]) == Members(ids) + {i};
    if k == key && Target(s, key) == Some(list) {
      assert Live(t, k) == Live(s, k) + {i};
      assert Held(t, k) == Held(s, k) + {i};
    } else {
      assert Live(t, k) == Live(s, k);
      assert Held(t, k) == Held(s, k);
    }
  }

  lemma AppendKeeps(s: State, i: nat)
    requires Sound(s) && Kept(s) && i in s.pending
    ensures Kept(After(s, Append(i)))
  {
    var t := After(s, Append(i));
    forall k ensures Held(t, k) == Live(t, k) {
      AppendHolds(s, i, k);
    }
    AppendStaysAttached(s, i);
  }

  lemma AppendStaysAttached(s: State, i: nat)
    requires Sound(s) && Attached(s) && LateIsRight(s) && i in s.pending
    ensures Attached(After(s, Append(i))) && LateIsRight(After(s, Append(i)))
  {
    var ids := s.lists[s.pending[i]].ids;
    assert Members(ids + [i]) == Members(ids) + {i};
  }

  lemma VerifyKeeps(s: State)
    requires Sound(s) && Kept(s) && Enabled(s, VerifyNext)
    ensures Kept(After(s, VerifyNext))
  {
    var t := After(s, VerifyNext);
    var ids, next := s.lists[s.phase.list].ids, s.phase.next;
    var i := ids[next];
    assert ListIsRight(s, s.lists[s.phase.list]);
    assert i in ids && i !in ids[..next];
    assert Held(s, s.phase.key) == Live(s, s.phase.key);
    assert i in Live(s, s.phase.key);
    if t.log != s.log {
      ReleasedJoin(s.log, [t.log[|s.log|]]);
      assert ReleasedIn([t.log[|s.log|]]) == {i};
    }
    forall k ensures Held(t, k) == Live(t, k) {
      assert Held(s, k) == Live(s, k);
      if k == s.phase.key && t.log != s.log {
        assert Live(t, k) == Live(s, k) - {i};
        assert Held(t, k) == Held(s, k) - {i};
      } else {
        assert Live(t, k) == Live(s, k);
      }
    }
  }

  lemma WriteBackKeeps(s: State)
    requires Sound(s) && Kept(s) && Enabled(s, WriteBack)
    ensures Kept(After(s, WriteBack))
  {
    var t := After(s, WriteBack);
    forall k ensures Held(t, k) == Live(t, k) {
      assert Held(s, k) == Live(s, k);
      assert Live(t, k) == Live(s, k);
      if k != s.phase.key {
        assert Listed(t, k) == Listed(s, k);
      }
    }
  }

  lemma ClearKeeps(s: State, order: Ids)
    requires Sound(s) && Kept(s) && Enabled(s, ClearAll(order)) && Polite(s, ClearAll(order))
    ensures Kept(After(s, ClearAll(order)))
  {
    var t := After(s, ClearAll(order));
    ClearReleases(s, order);
    forall i <- AllListed(s) ensures i !in s.late {
      var k :| k in s.dict && i in IdsIn(s.lists, s.dict[k]);
      assert Held(s, k) == Live(s, k);
      assert i in Held(s, k);
    }
    forall k ensures Held(t, k) == Live(t, k) {
      assert Held(s, k) == Live(s, k);
      assert Live(t, k) <= Live(s, k);
      forall i <- Live(s, k) ensures i !in Live(t, k) {
        assert i in Listed(s, k) && i in IdsIn(s.lists, s.dict[k]);
        assert i in AllListed(s);
      }
    }
  }

  lemma FetchKeeps(s: State)
    requires Sound(s) && Kept(s) && s.phase.Called?
    ensures Kept(After(s, Fetch))
  {
    var t := After(s, Fetch);
    WithListKeeps(s, s.phase.key);
    forall k ensures Held(t, k) == Live(t, k) {
      assert Held(s, k) == Live(s, k);
      assert Listed(WithList(s, s.phase.key), k) == Listed(s, k);
      assert Live(t, k) == Live(s, k);
    }
  }

  lemma OtherKeeps(s: State, l: Label)
    requires Sound(s) && Kept(s) && Enabled(s, l) && (l.Receive? || l.VerifyRaises? || l.LoopDone? || l.Collect?)
    ensures Kept(After(s, l))
  {
    var t := After(s, l);
    forall k ensures Held(t, k) == Live(t, k) {
      assert Held(s, k) == Live(s, k);
      assert Live(t, k) == Live(s, k);
    }
  }

  lemma StepKeeps(s: State, l: Label)
    requires Sound(s) && Kept(s) && Enabled(s, l) && Polite(s, l)
    ensures Kept(After(s, l))
  {
    if l.Lookup? {
      LookupKeeps(s, l.listener);
    } else if l.Append? {
      AppendKeeps(s, l.id);
    } else if l.Fetch? {
      FetchKeeps(s);
    } else if l.VerifyNext? {
      VerifyKeeps(s);
    } else if l.WriteBack? {
      WriteBackKeeps(s);
    } else if l.ClearAll? {
      ClearKeeps(s, l.order);
    } else {
      OtherKeeps(s, l);
    }
  }

  /** What holds in every state of a run with clears between events. */
  ghost predicate Inv(s: State) {
    Sound(s) && Once(s) && Kept(s)
  }

  lemma {:induction false} RunKeeps(s: State, ls: seq<Label>)
    requires Inv(s) && PoliteRun(s, ls)
    ensures Runs(s, ls) && Inv(End(s, ls))
    decreases |ls|
  {
    if ls != [] {
      PoliteIsHarmless(s, ls[0]);
      StepIsSound(s, ls[0]);
      StepStaysOnce(s, ls[0]);
      StepKeeps(s, ls[0]);
      RunKeeps(After(s, ls[0]), ls[1..]);
    }
  }

  lemma Reachable(ls: seq<Label>)
    requires PoliteRun(INIT, ls)
    ensures Runs(INIT, ls) && Inv(End(INIT, ls))
  {
    assert forall k :: Held(INIT, k) == Live(INIT, k);
    RunKeeps(INIT, ls);
  }
}
