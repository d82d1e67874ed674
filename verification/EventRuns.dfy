/** What whole interleavings of events, registrations and clears come to (pybtp/btp.py, testcases/utils.py). */
module EventRuns {
  import opened Bytes
  import opened Listeners
  import opened Gaps
  import opened GapEvents

  // ---- Clears ----

  /**
   Where a clear is harmful, for runs with clears between events so far: nowhere between two events; during
   an event, if the list of its key had members when the loop came to its end (or has them now); and after
   a predicate raised, if the same event had released listeners before.
   */
  lemma ExposedByPhase(s: State)
    requires Inv(s)
    ensures Exposed(s) == match s.phase
                          case Verifying(_, _, list, _, _) => Members(IdsAt(s, list))
                          case Collecting(_, _, list, _) => Members(IdsAt(s, list))
                          case WritingBack(_, _, rest, removed) => Members(rest) + removed
                          case Failed(_, _, removed) => removed
                          case _ => {}
  {
    if s.phase.Verifying? || s.phase.Collecting? || s.phase.WritingBack? || s.phase.Failed? {
      StoredIsListed(s, s.phase.key);
    }
    assert forall i <- Exposed(s) :: i in RemovedOf(s) || i in Local(s);
  }

  lemma StoredIsListed(s: State, key: Key)
    ensures Members(Listed(s, key)) <= AllListed(s)
  {
    if key in s.dict {
      assert forall i <- Listed(s, key) :: i in IdsIn(s.lists, s.dict[key]);
    }
  }

  /**
   `stop` clears once the receiver thread has ended, or is told to between two events. That releases a
   listener a second time exactly if the thread ended because a predicate raised, in an event that had
   released other listeners before: those are still in the list.
   */
  lemma ClearAtStop(ls: seq<Label>, order: Ids)
    requires PoliteRun(INIT, ls) && Runs(INIT, ls) && Enabled(End(INIT, ls), ClearAll(order))
    requires var s := End(INIT, ls); s.phase.Idle? || s.phase.Dead? || s.phase.Failed?
    ensures LogOnce(After(End(INIT, ls), ClearAll(order)).log) <==>
            !End(INIT, ls).phase.Failed? || End(INIT, ls).phase.removed == {}
  {
    Reachable(ls);
    var s := End(INIT, ls);
    ExposedByPhase(s);
    if Exposed(s) == {} {
      ClearStaysOnce(s, order);
    } else {
      var i :| i in Exposed(s);
      ClearingOnce(s, order);
      TwiceStays(s.log, Clearing(s, order));
    }
  }

  /** An event without a predicate to satisfy, and one listener that waits for it. */
  const KEY: Key := (1, 0x81)
  const WAITING := State({}, [Listener(KEY, None)], [PyList(KEY, [0])], map[KEY := 0], map[], Idle, [], {})

  lemma OneWaits(b: seq<Label>)
    requires Runs(WAITING, b)
    ensures Runs(INIT, [Lookup(Listener(KEY, None)), Append(0)] + b)
    ensures End(INIT, [Lookup(Listener(KEY, None)), Append(0)] + b) == End(WAITING, b)
  {
    var s := After(INIT, Lookup(Listener(KEY, None)));
    assert s == State({}, [Listener(KEY, None)], [PyList(KEY, [])], map[KEY := 0], map[0 := 0], Idle, [], {});
    var t := After(s, Append(0));
    assert s.lists[0].ids + [0] == [0];
    assert t.pending == map[] && t.lists == WAITING.lists;
    assert t == WAITING;
    Step(s, Append(0), b);
    Step(INIT, Lookup(Listener(KEY, None)), [Append(0)] + b);
    assert [Lookup(Listener(KEY, None))] + ([Append(0)] + b) == [Lookup(Listener(KEY, None)), Append(0)] + b;
  }

  lemma EventReleases(b: seq<Label>)
    requires Runs(WAITING.(phase := Verifying(KEY, Else([]), 0, 1, {0}), log := [Release(0, KEY, Some(Else([])))]), b)
    ensures Runs(WAITING, [Receive(KEY, [], Ok([])), Fetch, VerifyNext] + b)
    ensures End(WAITING, [Receive(KEY, [], Ok([])), Fetch, VerifyNext] + b)
         == End(WAITING.(phase := Verifying(KEY, Else([]), 0, 1, {0}), log := [Release(0, KEY, Some(Else([])))]), b)
  {
    var s := WAITING.(phase := Verifying(KEY, Else([]), 0, 0, {}));
    assert {} + {0} == {0} && After(s, VerifyNext).phase == Verifying(KEY, Else([]), 0, 1, {0});
    assert After(s, VerifyNext).log == [Release(0, KEY, Some(Else([])))];
    Step(s, VerifyNext, b);
    Step(WAITING.(phase := Called(KEY, Else([]))), Fetch, [VerifyNext] + b);
    Step(WAITING, Receive(KEY, [], Ok([])), [Fetch] + ([VerifyNext] + b));
    assert [Receive(KEY, [], Ok([]))] + ([Fetch] + ([VerifyNext] + b)) ==
        [Receive(KEY, [], Ok([])), Fetch, VerifyNext] + b;
  }

  /** A run in which a clear in the middle of an event releases a listener that the event has released. */
  lemma ReleasedTwice()
    ensures exists ls :: Runs(INIT, ls) && |ls| == 6 && ls[5] == ClearAll([0])
                           && ReleasedIn(End(INIT, ls).log) == {0} && |End(INIT, ls).log| == 2
  {
    var s := WAITING.(phase := Verifying(KEY, Else([]), 0, 1, {0}), log := [Release(0, KEY, Some(Else([])))]);
    assert AllListed(s) == {0} by {
      assert 0 in IdsIn(s.lists, s.dict[KEY]);
    }
    Step(s, ClearAll([0]), []);
    ClearReleases(s, [0]);
    assert ReleasedIn(s.log) == {0};
    EventReleases([ClearAll([0])]);
    OneWaits([Receive(KEY, [], Ok([])), Fetch, VerifyNext] + [ClearAll([0])]);
  }

  /** Two listeners that wait, the second with a predicate; and an event that has released the first. */
  function TwoWait(pred: Args -> bool): State {
    State({}, [Listener(KEY, None), Listener(KEY, Some(pred))], [PyList(KEY, [0, 1])], map[KEY := 0],
          map[], Idle, [], {})
  }

  function FailedBehindRelease(s: State): State {
    s.(phase := Failed(KEY, Else([]), {0}), log := [Release(0, KEY, Some(Else([])))])
  }

  lemma TwoAndFailure(pred: Args -> bool, b: seq<Label>) returns (ls: seq<Label>)
    requires Runs(FailedBehindRelease(TwoWait(pred)), b)
    ensures Runs(INIT, ls) && End(INIT, ls) == End(FailedBehindRelease(TwoWait(pred)), b)
    ensures |ls| == 8 + |b| && ls[2] == Lookup(Listener(KEY, Some(pred))) && ls[8..] == b
  {
    var event := [Receive(KEY, [], Ok([])), Fetch, VerifyNext, VerifyRaises] + b;
    EventRaises(TwoWait(pred), b);
    SecondWaits(pred, event);
    OneWaits([Lookup(Listener(KEY, Some(pred))), Append(1)] + event);
    ls := [Lookup(Listener(KEY, None)), Append(0)] + ([Lookup(Listener(KEY, Some(pred))), Append(1)] + event);
  }

  /**
   A run in which the second listener's predicate raises after the first one was released, so that the
   receiver thread ends, and the clear that follows releases the first one again.
   */
  lemma ReleasedAgainAtStop(pred: Args -> bool) returns (ls: seq<Label>)
    ensures Runs(INIT, ls) && |ls| == 9 && ls[8] == ClearAll([0, 1]) && ls[2] == Lookup(Listener(KEY, Some(pred)))
    ensures End(INIT, ls).phase.Failed? && End(INIT, ls).phase.removed == {0} && !LogOnce(End(INIT, ls).log)
  {
    var s := FailedBehindRelease(TwoWait(pred));
    assert s.log[0] in s.log && 0 in ReleasedIn(s.log);
    ClearedAfterFailure(s);
    ls := TwoAndFailure(pred, [ClearAll([0, 1])]);
    assert ls[8..][0] == ls[8];
  }

  lemma ClearedAfterFailure(s: State)
    requires s.dict == map[KEY := 0] && s.lists == [PyList(KEY, [0, 1])] && 0 in ReleasedIn(s.log)
    ensures Runs(s, [ClearAll([0, 1])])
    ensures End(s, [ClearAll([0, 1])]).phase == s.phase && !LogOnce(End(s, [ClearAll([0, 1])]).log)
  {
    assert AllListed(s) == {0, 1} by {
      assert 0 in IdsIn(s.lists, s.dict[KEY]) && 1 in IdsIn(s.lists, s.dict[KEY]);
    }
    ClearingOnce(s, [0, 1]);
    assert 0 in [0, 1] && 0 in ReleasedIn(Clearing(s, [0, 1]));
    TwiceStays(s.log, Clearing(s, [0, 1]));
    Step(s, ClearAll([0, 1]), []);
  }

  lemma SecondWaits(pred: Args -> bool, b: seq<Label>)
    requires Runs(TwoWait(pred), b)
    ensures Runs(WAITING, [Lookup(Listener(KEY, Some(pred))), Append(1)] + b)
    ensures End(WAITING, [Lookup(Listener(KEY, Some(pred))), Append(1)] + b) == End(TwoWait(pred), b)
  {
    var s := After(WAITING, Lookup(Listener(KEY, Some(pred))));
    assert s.pending == map[1 := 0] && s.made == [Listener(KEY, None), Listener(KEY, Some(pred))];
    var t := After(s, Append(1));
    assert s.lists[0].ids + [1] == [0, 1];
    assert t.pending == map[] && t.lists == [PyList(KEY, [0, 1])];
    Step(s, Append(1), b);
    Step(WAITING, Lookup(Listener(KEY, Some(pred))), [Append(1)] + b);
    assert [Lookup(Listener(KEY, Some(pred)))] + ([Append(1)] + b) ==
        [Lookup(Listener(KEY, Some(pred))), Append(1)] + b;
  }

  lemma EventRaises(s: State, b: seq<Label>)
    requires s.phase.Idle? && s.log == [] && s.dict == map[KEY := 0] && s.lists == [PyList(KEY, [0, 1])]
    requires |s.made| == 2 && s.made[0].pred.None? && s.made[1].pred.Some?
    requires Runs(FailedBehindRelease(s), b)
    ensures Runs(s, [Receive(KEY, [], Ok([])), Fetch, VerifyNext, VerifyRaises] + b)
    ensures End(s, [Receive(KEY, [], Ok([])), Fetch, VerifyNext, VerifyRaises] + b)
         == End(FailedBehindRelease(s), b)
  {
    var s3 := s.(phase := Verifying(KEY, Else([]), 0, 0, {}));
    var s4 := After(s3, VerifyNext);
    assert {} + {0} == {0} && s4.phase == Verifying(KEY, Else([]), 0, 1, {0});
    assert s4.log == [Release(0, KEY, Some(Else([])))];
    Step(s4, VerifyRaises, b);
    Step(s3, VerifyNext, [VerifyRaises] + b);
    Step(s.(phase := Called(KEY, Else([]))), Fetch, [VerifyNext] + ([VerifyRaises] + b));
    Step(s, Receive(KEY, [], Ok([])), [Fetch] + ([VerifyNext] + ([VerifyRaises] + b)));
    assert [Receive(KEY, [], Ok([]))] + ([Fetch] + ([VerifyNext] + ([VerifyRaises] + b)))
        == [Receive(KEY, [], Ok([])), Fetch, VerifyNext, VerifyRaises] + b;
  }

  lemma Step(s: State, l: Label, b: seq<Label>)
    requires Enabled(s, l) && Runs(After(s, l), b)
    ensures Runs(s, [l] + b) && End(s, [l] + b) == End(After(s, l), b)
  {
    assert ([l] + b)[1..] == b;
  }

  // ---- Lost registrations ----

  /** The step puts another list under the key, or none. */
  predicate Replaces(s: State, l: Label, key: Key) {
    l.ClearAll? || (l.WriteBack? && s.phase.WritingBack? && s.phase.key == key)
  }

  predicate Replaced(s: State, ls: seq<Label>, key: Key)
    requires Runs(s, ls)
    decreases |ls|
  {
    ls != [] && (Replaces(s, ls[0], key) || Replaced(After(s, ls[0]), ls[1..], key))
  }

  predicate Stores(s: State, key: Key, list: nat) {
    key in s.dict && s.dict[key] == list
  }

  /** A list object stays under its key exactly until a write-back of the key, or a clear. */
  lemma {:induction false} StoredUntilReplaced(s: State, ls: seq<Label>, key: Key, list: nat)
    requires Runs(s, ls) && list < |s.lists|
    ensures Stores(End(s, ls), key, list) <==> Stores(s, key, list) && !Replaced(s, ls, key)
    decreases |ls|
  {
    if ls != [] {
      StoredUntilReplaced(After(s, ls[0]), ls[1..], key, list);
    }
  }

  /** A listener that a registration still has to append was looked up for once. */
  lemma {:induction false} StillPending(s: State, ls: seq<Label>, i: nat)
    requires Runs(s, ls) && i < |s.made| && i in End(s, ls).pending
    ensures i in s.pending && End(s, ls).pending[i] == s.pending[i]
    decreases |ls|
  {
    if ls != [] {
      StillPending(After(s, ls[0]), ls[1..], i);
    }
  }

  lemma {:induction false} MadeStays(s: State, ls: seq<Label>)
    requires Runs(s, ls)
    ensures s.made <= End(s, ls).made
    decreases |ls|
  {
    if ls != [] {
      MadeStays(After(s, ls[0]), ls[1..]);
    }
  }

  lemma {:induction false} AppendedStays(s: State, ls: seq<Label>, i: nat)
    requires Runs(s, ls) && i < |s.made| && i !in s.pending
    ensures i !in End(s, ls).pending && (i in End(s, ls).late <==> i in s.late)
    decreases |ls|
  {
    if ls != [] {
      AppendedStays(After(s, ls[0]), ls[1..], i);
    }
  }

  /** The receiver is not using a list. */
  predicate AtRest(s: State) {
    !s.phase.Verifying? && !s.phase.Collecting? && !s.phase.WritingBack?
  }

  /**
   A registration that looks its list up, and appends after the steps b, is lost exactly if in between
   another list took the place of that one (by the write-back of an event of its key, or a clear), or if at
   the append such an event has collected its listeners and not written them back. Otherwise the listener is
   in the list of its key until it is released. A lost listener is never released.
   */
  lemma LostExactly(a: seq<Label>, n: Listener, b: seq<Label>, c: seq<Label>)
    requires PoliteRun(INIT, a) && Runs(INIT, a)
    requires var t := After(End(INIT, a), Lookup(n)); PoliteRun(t, b) && Runs(t, b)
    requires |End(INIT, a).made| in End(After(End(INIT, a), Lookup(n)), b).pending
    requires var i := |End(INIT, a).made|;
             var v := After(End(After(End(INIT, a), Lookup(n)), b), Append(i)); PoliteRun(v, c) && Runs(v, c)
    ensures var i := |End(INIT, a).made|;
            var t := After(End(INIT, a), Lookup(n));
            var u := End(t, b);
            var w := End(After(u, Append(i)), c);
            var lost := Replaced(t, b, n.key) || (u.phase.WritingBack? && u.phase.key == n.key);
            && (lost ==> i !in ReleasedIn(w.log))
            && (AtRest(w) ==> (lost <==> i !in ReleasedIn(w.log) && i !in Listed(w, n.key)))
  {
    var s, i := End(INIT, a), |End(INIT, a).made|;
    Reachable(a);
    StepIsKept(s, Lookup(n));
    var t := After(s, Lookup(n));
    RunKeeps(t, b);
    var u := End(t, b);
    StepIsKept(u, Append(i));
    var v := After(u, Append(i));
    RunKeeps(v, c);
    StillPending(t, b, i);
    MadeStays(t, b);
    StoredUntilReplaced(t, b, n.key, t.pending[i]);
    AppendDecides(u, i);
    AppendedStays(v, c, i);
    MadeStays(v, c);
    WaitsIfKept(End(v, c), i);
  }

  lemma StepIsKept(s: State, l: Label)
    requires Inv(s) && Enabled(s, l) && !l.ClearAll?
    ensures Inv(After(s, l))
  {
    StepIsSound(s, l);
    StepStaysOnce(s, l);
    StepKeeps(s, l);
  }

  /** The append is in time if its list is stored and not yet collected. */
  lemma AppendDecides(s: State, i: nat)
    requires Inv(s) && i in s.pending
    ensures i < |s.made|
    ensures i in After(s, Append(i)).late <==>
            !Stores(s, s.made[i].key, s.pending[i]) || (s.phase.WritingBack? && s.phase.key == s.made[i].key)
    ensures i !in After(s, Append(i)).pending && |After(s, Append(i)).made| == |s.made|
  {
  }

  lemma WaitsIfKept(s: State, i: nat)
    requires Inv(s) && i < |s.made| && i !in s.pending
    ensures i in s.late ==> i !in ReleasedIn(s.log)
    ensures AtRest(s) ==> (i in s.late <==> i !in ReleasedIn(s.log) && i !in Listed(s, s.made[i].key))
  {
    var key := s.made[i].key;
    assert Held(s, key) == Live(s, key);
    if AtRest(s) && i in Listed(s, key) && i !in ReleasedIn(s.log) {
      assert i !in RemovedOf(s);
      assert i in Held(s, key);
    } else if i !in s.late && i !in ReleasedIn(s.log) {
      assert i in Live(s, key);
    }
  }

  /** A run in which a listener is looked up for during an event and appended after the event was collected. */
  lemma RegistrationIsLost()
    ensures exists ls :: Runs(INIT, ls) && |ls| == 7 && ls[3] == Lookup(Listener(KEY, None)) && ls[5] == Append(0)
              && var s := End(INIT, ls); s.phase.Idle? && 0 in s.late && Listed(s, KEY) == [] && s.log == []
  {
    var s := EmptyCollecting();
    var rest := [Lookup(Listener(KEY, None)), Collect([]), Append(0), WriteBack];
    AppendedTooLate(s);
    NobodyWaits(rest);
  }

  lemma AppendedTooLate(s: State)
    requires s.lists == [PyList(KEY, [])] && s.dict == map[KEY := 0] && s.phase == Collecting(KEY, Else([]), 0, {})
    requires s.made == [] && s.pending == map[] && s.late == {}
    ensures var ls := [Lookup(Listener(KEY, None)), Collect([]), Append(0), WriteBack];
            Runs(s, ls) && var t := End(s, ls); t.phase.Idle? && 0 in t.late && Listed(t, KEY) == [] && t.log == s.log
  {
    var n := Listener(KEY, None);
    var t := s.(made := [n], pending := map[0 := 0]);
    assert After(s, Lookup(n)) == t;
    var u := t.(phase := WritingBack(KEY, Else([]), [], {}));
    assert After(t, Collect([])) == u;
    var v := After(u, Append(0));
    assert v.late == {0} && v.phase == u.phase && v.log == s.log;
    Step(v, WriteBack, []);
    Step(u, Append(0), [WriteBack]);
    Step(t, Collect([]), [Append(0)] + [WriteBack]);
    Step(s, Lookup(n), [Collect([])] + ([Append(0)] + [WriteBack]));
    assert [Lookup(n)] + ([Collect([])] + ([Append(0)] + [WriteBack])) ==
        [Lookup(n), Collect([]), Append(0), WriteBack];
  }

  /** An event that nobody waits for, before the collection. */
  function EmptyCollecting(): State {
    INIT.(lists := [PyList(KEY, [])], dict := map[KEY := 0], phase := Collecting(KEY, Else([]), 0, {}))
  }

  lemma NobodyWaits(b: seq<Label>)
    requires Runs(EmptyCollecting(), b)
    ensures Runs(INIT, [Receive(KEY, [], Ok([])), Fetch, LoopDone] + b)
    ensures End(INIT, [Receive(KEY, [], Ok([])), Fetch, LoopDone] + b) == End(EmptyCollecting(), b)
  {
    var s := INIT.(phase := Called(KEY, Else([])));
    var t := After(s, Fetch);
    assert t.lists == [PyList(KEY, [])] && t.dict == map[KEY := 0];
    assert IdsAt(t, 0) == [] && t.phase == Verifying(KEY, Else([]), 0, 0, {});
    Step(t, LoopDone, b);
    Step(s, Fetch, [LoopDone] + b);
    Step(INIT, Receive(KEY, [], Ok([])), [Fetch] + ([LoopDone] + b));
    assert [Receive(KEY, [], Ok([]))] + ([Fetch] + ([LoopDone] + b)) == [Receive(KEY, [], Ok([])), Fetch, LoopDone] + b;
  }

  // ---- The first event that a listener wants ----

  /** The event being delivered has released the listener or still has it before it. */
  predicate Ahead(s: State, i: nat, key: Key, args: Args) {
    || Release(i, key, Some(args)) in s.log
    || (s.phase == Called(key, args) && i in Listed(s, key))
    || (s.phase.Verifying? && s.phase.key == key && s.phase.args == args &&
        i in From(IdsAt(s, s.phase.list), s.phase.next))
    || s.phase.Failed?
  }

  function From(ids: Ids, next: nat): Ids {
    if next <= |ids| then ids[next..] else []
  }

  lemma CalledStaysAhead(s: State, l: Label, i: nat)
    requires Sound(s) && Enabled(s, l) && !l.ClearAll? && s.phase.Called? && i in Listed(s, s.phase.key)
    ensures Ahead(After(s, l), i, s.phase.key, s.phase.args)
  {
    var key := s.phase.key;
    WithListKeeps(s, key);
    if l.Lookup? {
      WithListKeeps(s, l.listener.key);
      assert Listed(After(s, l), key) == Listed(WithList(s, l.listener.key), key);
    } else if l.Append? {
      assert i in Listed(After(s, l), key);
    }
  }

  lemma VerifyStaysAhead(s: State, i: nat)
    requires s.phase.Verifying? && Enabled(s, VerifyNext) && i in From(IdsAt(s, s.phase.list), s.phase.next)
    requires i < |s.made| && Wants(s.made[i].pred, s.phase.args)
    ensures Ahead(After(s, VerifyNext), i, s.phase.key, s.phase.args)
  {
    var t := After(s, VerifyNext);
    var ids := IdsAt(s, s.phase.list);
    assert ids[s.phase.next..] == [ids[s.phase.next]] + ids[s.phase.next + 1..];
    if ids[s.phase.next] == i {
      assert t.log[|s.log|] in t.log;
    }
  }

  lemma VerifyingStaysAhead(s: State, l: Label, i: nat)
    requires Sound(s) && Enabled(s, l) && !l.ClearAll? && s.phase.Verifying? &&
             i in From(IdsAt(s, s.phase.list), s.phase.next)
    requires i < |s.made| && Wants(s.made[i].pred, s.phase.args)
    ensures Ahead(After(s, l), i, s.phase.key, s.phase.args)
  {
    if l.VerifyNext? {
      VerifyStaysAhead(s, i);
    } else if l.Append? || l.Lookup? {
      ListOnlyGrows(s, l, s.phase.list);
    }
  }

  lemma ListOnlyGrows(s: State, l: Label, list: nat)
    requires Enabled(s, l) && (l.Append? || l.Lookup?) && list < |s.lists|
    ensures IdsAt(s, list) <= IdsAt(After(s, l), list) && After(s, l).phase == s.phase
  {
  }

  lemma AheadStays(s: State, l: Label, i: nat, key: Key, args: Args)
    requires Sound(s) && Enabled(s, l) && !l.ClearAll? && Ahead(s, i, key, args)
    requires i < |s.made| && Wants(s.made[i].pred, args)
    ensures Ahead(After(s, l), i, key, args)
  {
    if Release(i, key, Some(args)) !in s.log && !s.phase.Failed? {
      if s.phase.Called? {
        CalledStaysAhead(s, l, i);
      } else {
        VerifyingStaysAhead(s, l, i);
      }
    }
  }

  /** What the steps of an event keep about a listener that wants it. */
  ghost predicate WillGet(s: State, i: nat, key: Key, args: Args) {
    Sound(s) && Ahead(s, i, key, args) && i < |s.made| && Wants(s.made[i].pred, args)
  }

  lemma WillGetStays(s: State, l: Label, i: nat, key: Key, args: Args)
    requires Enabled(s, l) && !l.ClearAll? && WillGet(s, i, key, args)
    ensures WillGet(After(s, l), i, key, args)
  {
    StepIsSound(s, l);
    AheadStays(s, l, i, key, args);
    MadeGrows(s, l);
  }

  lemma MadeGrows(s: State, l: Label)
    requires Enabled(s, l)
    ensures s.made <= After(s, l).made
  {
  }

  lemma {:induction false} AheadIsReleased(s: State, b: seq<Label>, i: nat, key: Key, args: Args)
    requires Runs(s, b) && (forall l <- b :: !l.ClearAll?) && WillGet(s, i, key, args)
    ensures WillGet(End(s, b), i, key, args)
    decreases |b|
  {
    if b != [] {
      assert b[0] in b && forall l <- b[1..] :: l in b;
      WillGetStays(s, b[0], i, key, args);
      AheadIsReleased(After(s, b[0]), b[1..], i, key, args);
    }
  }

  lemma {:induction false} LogGrows(s: State, b: seq<Label>)
    requires Runs(s, b)
    ensures s.log <= End(s, b).log
    decreases |b|
  {
    if b != [] {
      LogGrows(After(s, b[0]), b[1..]);
    }
  }

  /**
   The first event that a waiting listener wants releases it, and with that event's value, before the loop
   over its list ends; and that is its only release, whatever comes after. Here b is the event up to the end
   of its loop, with registrations of other threads in between, and c the rest of the run.
   */
  lemma FirstWantedEvent(a: seq<Label>, key: Key, data: seq<byte>, other: Result<seq<byte>>, b: seq<Label>,
      c: seq<Label>, i: nat)
    requires PoliteRun(INIT, a) && Runs(INIT, a)
    requires var s := End(INIT, a); s.phase.Idle? && i in Listed(s, key) && i < |s.made|
    requires var s := End(INIT, a);
             var e := EffectOf(s.conns, key, data, other);
             e.ret.Ok? && (s.made[i].pred.None? || s.made[i].pred.value(e.ret.value))
    requires var t := After(End(INIT, a), Receive(key, data, other));
             PoliteRun(t, b) && Runs(t, b) && (forall l <- b :: !l.ClearAll?) && End(t, b).phase.Collecting?
    requires PoliteRun(End(After(End(INIT, a), Receive(key, data, other)), b), c)
    ensures var s := End(INIT, a);
            var u := End(After(s, Receive(key, data, other)), b);
            && Runs(u, c) && LogOnce(End(u, c).log)
            && i !in ReleasedIn(s.log)
            && Release(i, key, Some(EffectOf(s.conns, key, data, other).ret.value)) in u.log
            && Release(i, key, Some(EffectOf(s.conns, key, data, other).ret.value)) in End(u, c).log
  {
    var s := End(INIT, a);
    var args := EffectOf(s.conns, key, data, other).ret.value;
    Reachable(a);
    WaitsIfKept(s, i);
    assert Held(s, key) == Live(s, key);
    StepIsKept(s, Receive(key, data, other));
    var t := After(s, Receive(key, data, other));
    AheadIsReleased(t, b, i, key, args);
    RunKeeps(t, b);
    RunKeeps(End(t, b), c);
    LogGrows(End(t, b), c);
  }

  // ---- The connections ----

  predicate Reported(conns: set<BleAddress>, args: Args) {
    (args.Connected? ==> args.addr in conns) && (args.Disconnected? ==> args.addr !in conns)
  }

  /** During an event the connections are as it said. */
  predicate StateHas(s: State) {
    s.phase.Idle? || s.phase.Dead? || Reported(s.conns, s.phase.args)
  }

  lemma {:induction false} StateIsKept(s: State, ls: seq<Label>)
    requires StateHas(s) && Runs(s, ls)
    ensures StateHas(End(s, ls))
    decreases |ls|
  {
    if ls != [] {
      StateIsKept(After(s, ls[0]), ls[1..]);
    }
  }

  /** What an event says about an address. */
  function Says(l: Label, addr: BleAddress): Option<bool> {
    if !l.Receive? then None
    else
      var up, down := DecConnected(l.data), DecDisconnected(l.data);
      if l.key == CONNECTED && up.Ok? && up.value.addr == addr then Some(true)
      else if l.key == DISCONNECTED && down.Ok? && down.value.addr == addr then Some(false)
      else None
  }

  /** The last word on the address, or the given one if there is none. */
  function LastWord(ls: seq<Label>, addr: BleAddress, before: bool): bool {
    if ls == [] then before
    else LastWord(ls[1..], addr, if Says(ls[0], addr).Some? then Says(ls[0], addr).value else before)
  }

  /** Over all interleavings, an address is connected exactly if the last event about it was its connection. */
  lemma {:induction false} ConnectedIsLastWord(s: State, ls: seq<Label>, addr: BleAddress)
    requires Runs(s, ls)
    ensures addr in End(s, ls).conns <==> LastWord(ls, addr, addr in s.conns)
    decreases |ls|
  {
    if ls != [] {
      ConnectedIsLastWord(After(s, ls[0]), ls[1..], addr);
    }
  }

  lemma {:induction false} NoOtherWord(ls: seq<Label>, addr: BleAddress, word: bool)
    requires forall l <- ls :: Says(l, addr) != Some(!word)
    ensures LastWord(ls, addr, word) == word
  {
    if ls != [] {
      assert ls[0] in ls && forall l <- ls[1..] :: l in ls;
      NoOtherWord(ls[1..], addr, word);
    }
  }

  /** Step l of a run, after the steps a, releases a listener with the value of an event. */
  predicate ReleasesNow(a: seq<Label>, l: Label, r: Release) {
    && Runs(INIT, a) && Enabled(End(INIT, a), l) && r.args.Some?
    && r !in End(INIT, a).log && r in After(End(INIT, a), l).log
  }

  lemma ReleasedByTheEvent(a: seq<Label>, l: Label, r: Release)
    requires ReleasesNow(a, l, r)
    ensures Reported(End(INIT, a).conns, r.args.value) && After(End(INIT, a), l).conns == End(INIT, a).conns
  {
    StateIsKept(INIT, a);
    ClearsGiveNothing(End(INIT, a), l);
  }

  lemma ClearsGiveNothing(s: State, l: Label)
    requires Enabled(s, l)
    ensures !l.VerifyNext? ==> forall r <- After(s, l).log :: r in s.log || r.args.None?
  {
  }

  /**
   When a step releases a listener for a connection (or disconnection), the address is already among
   the connected ones (or gone), and it stays so until the callback of the opposite event for it runs.
   */
  lemma StatePrecedesRelease(a: seq<Label>, l: Label, b: seq<Label>, r: Release)
    requires ReleasesNow(a, l, r) && Runs(After(End(INIT, a), l), b) && !r.args.value.Else?
    requires forall m <- b :: Says(m, r.args.value.addr) != Some(!r.args.value.Connected?)
    ensures Reported(End(INIT, a).conns, r.args.value)
    ensures Reported(End(After(End(INIT, a), l), b).conns, r.args.value)
  {
    ReleasedByTheEvent(a, l, r);
    ConnectedIsLastWord(After(End(INIT, a), l), b, r.args.value.addr);
    NoOtherWord(b, r.args.value.addr, r.args.value.Connected?);
  }

  /** What `connection_procedure` asserts, `is_connected()`, from the release of its listener on. */
  lemma ConnectionIsAsserted(a: seq<Label>, l: Label, b: seq<Label>, r: Release)
    requires ReleasesNow(a, l, r) && Runs(After(End(INIT, a), l), b) && r.args.value.Connected?
    requires forall m <- b :: Says(m, r.args.value.addr) != Some(false)
    ensures HasConnection(End(After(End(INIT, a), l), b).conns, None)
    ensures HasConnection(End(After(End(INIT, a), l), b).conns, Some(r.args.value.addr))
  {
    StatePrecedesRelease(a, l, b, r);
    assert r.args.value.addr in End(After(End(INIT, a), l), b).conns;
  }

  /**
   `disconnection_procedure` asserts more than its listeners wait for, namely that no device at all is
   connected. After the release of its listener, and whatever arrives then, that holds exactly if the last
   word on every other address was its disconnection, or there was none and it was not connected; and no
   event connected the device again.
   */
  lemma DisconnectionIsAsserted(a: seq<Label>, l: Label, b: seq<Label>, r: Release)
    requires ReleasesNow(a, l, r) && Runs(After(End(INIT, a), l), b) && r.args.value.Disconnected?
    ensures !HasConnection(End(After(End(INIT, a), l), b).conns, None) <==>
            && !LastWord(b, r.args.value.addr, false)
            && forall addr | addr != r.args.value.addr :: !LastWord(b, addr, addr in End(INIT, a).conns)
  {
    ReleasedByTheEvent(a, l, r);
    var t := After(End(INIT, a), l);
    forall addr ensures addr in End(t, b).conns <==> LastWord(b, addr, addr in t.conns) {
      ConnectedIsLastWord(t, b, addr);
    }
    if HasConnection(End(t, b).conns, None) {
      var addr :| addr in End(t, b).conns;
      assert LastWord(b, addr, addr in t.conns);
    }
  }

  /** So with two devices connected the assertion fails. */
  lemma OtherDeviceStaysConnected(a: seq<Label>, l: Label, b: seq<Label>, r: Release, addr: BleAddress)
    requires ReleasesNow(a, l, r) && Runs(After(End(INIT, a), l), b) && r.args.value.Disconnected?
    requires addr in End(INIT, a).conns && forall m <- b :: Says(m, addr) != Some(false)
    ensures addr != r.args.value.addr && addr in End(After(End(INIT, a), l), b).conns
  {
    ReleasedByTheEvent(a, l, r);
    ConnectedIsLastWord(After(End(INIT, a), l), b, addr);
    NoOtherWord(b, addr, true);
  }
}
