/** Waiting for events: listeners and the event handler (pybtp/btp.py). */
module Listeners {
  import opened Bytes
  import opened Workers

  /** A service and an opcode. */
  type Key = (byte, byte)

  /** What happens at a handler, in order. V is what the callbacks return. */
  datatype Action<!V> =
    | Register(key: Key, pred: Option<V -> bool>)
    | Event(key: Key, ret: V)
    | Clear

  /** `verify`: no predicate accepts everything. */
  predicate Wants<V>(pred: Option<V -> bool>, v: V) {
    pred.None? || pred.value(v)
  }

  /** What has become of a listener: still waiting, or released at a step with a result. */
  datatype Fate<V> = Pending | Released(result: Option<V>, at: nat)

  /** The fate of the listener registered at step i, looking at the steps from j on. */
  function FateFrom<V>(tr: seq<Action<V>>, i: nat, j: nat): Fate<V>
    requires i < |tr| && tr[i].Register? && j <= |tr|
    decreases |tr| - j
  {
    if j == |tr| then Pending
    else if tr[j].Clear? then Released(None, j)
    else if tr[j].Event? && tr[j].key == tr[i].key && Wants(tr[i].pred, tr[j].ret) then Released(Some(tr[j].ret), j)
    else FateFrom(tr, i, j + 1)
  }

  function FateOf<V>(tr: seq<Action<V>>, i: nat): Fate<V>
    requires i < |tr| && tr[i].Register?
  {
    FateFrom(tr, i, i + 1)
  }

  /** Step j releases the listener registered at step i, if it is still waiting. */
  predicate Releases<V>(tr: seq<Action<V>>, i: nat, j: nat)
    requires i < |tr| && tr[i].Register? && j < |tr|
  {
    tr[j].Clear? || (tr[j].Event? && tr[j].key == tr[i].key && Wants(tr[i].pred, tr[j].ret))
  }

  lemma {:induction false} FateFromIsFirst<V>(tr: seq<Action<V>>, i: nat, j: nat)
    requires i < |tr| && tr[i].Register? && j <= |tr|
    ensures FateFrom(tr, i, j).Pending? <==> forall k | j <= k < |tr| :: !Releases(tr, i, k)
    ensures FateFrom(tr, i, j).Released? ==>
              var r := FateFrom(tr, i, j);
              && j <= r.at < |tr| && Releases(tr, i, r.at) && (forall k | j <= k < r.at :: !Releases(tr, i, k))
              && r.result == if tr[r.at].Clear? then None else Some(tr[r.at].ret)
    decreases |tr| - j
  {
    if j < |tr| && !Releases(tr, i, j) {
      FateFromIsFirst(tr, i, j + 1);
    }
  }

  /**
   A listener gets the first event after its registration that has its key and satisfies its
   predicate, unless the listeners are cleared before: then it gets nothing.
   */
  lemma FateIsFirstMatch<V>(tr: seq<Action<V>>, i: nat)
    requires i < |tr| && tr[i].Register?
    ensures FateOf(tr, i).Pending? <==> forall k | i < k < |tr| :: !Releases(tr, i, k)
    ensures FateOf(tr, i).Released? ==>
              var r := FateOf(tr, i);
              && i < r.at < |tr| && Releases(tr, i, r.at) && (forall k | i < k < r.at :: !Releases(tr, i, k))
              && r.result == if tr[r.at].Clear? then None else Some(tr[r.at].ret)
  {
    FateFromIsFirst(tr, i, i + 1);
  }

  /** One more step: a listener that was released stays as it is; a waiting one may be released now. */
  lemma {:induction false} FateFromSnoc<V>(tr: seq<Action<V>>, a: Action<V>, i: nat, j: nat)
    requires i < |tr| && tr[i].Register? && j <= |tr|
    ensures FateFrom(tr + [a], i, j) ==
            if FateFrom(tr, i, j).Released? then FateFrom(tr, i, j)
            else if a.Clear? then Released(None, |tr|)
            else if a.Event? && a.key == tr[i].key && Wants(tr[i].pred, a.ret) then Released(Some(a.ret), |tr|)
            else Pending
    decreases |tr| - j
  {
    if j < |tr| {
      assert (tr + [a])[j] == tr[j] && (tr + [a])[i] == tr[i];
      FateFromSnoc(tr, a, i, j + 1);
    }
  }

  predicate NoDup<T(==)>(s: seq<T>) {
    forall i, j | 0 <= i < j < |s| :: s[i] != s[j]
  }

  class BTPEventListener<V> {
    const verifyF: Option<V -> bool>
    ghost const id: nat       // the step of its registration
    var sem: nat              // how often it was released
    var result: Option<V>

    constructor (f: Option<V -> bool>, ghost id: nat)
      ensures verifyF == f && this.id == id && sem == 0 && result == None
    {
      verifyF, this.id, sem, result := f, id, 0, None;
    }

    method Release()
      modifies this`sem
      ensures sem == old(sem) + 1
    {
      sem := sem + 1;
    }

    method Verify(args: V) returns (r: bool)
      modifies this`result
      ensures r == Wants(verifyF, args)
      ensures result == if r then Some(args) else old(result)
    {
      if verifyF.Some? {
        var returnVal := verifyF.value(args);
        if returnVal {
          result := Some(args);
        }
        return returnVal;
      }
      result := Some(args);
      return true;
    }
  }

  /** `list(s)` of a set: the order is whatever it is. */
  method ListOf<T(==)>(s: set<T>) returns (l: seq<T>)
    ensures NoDup(l) && forall x :: x in l <==> x in s
  {
    l := [];
    var rest := s;
    while rest != {}
      invariant NoDup(l) && rest <= s && forall x :: x in l <==> x in s && x !in rest
    {
      var x :| x in rest;
      assert x !in l;
      l := l + [x];
      rest := rest - {x};
    }
  }

  /** What a defaultdict holds under the key. */
  function Waiting<V>(listeners: map<Key, seq<V>>, key: Key): seq<V> {
    if key in listeners then listeners[key] else []
  }

  class BTPEventHandler<V(!new)> {
    var listeners: map<Key, seq<BTPEventListener<V>>>
    ghost var trace: seq<Action<V>>
    ghost var made: map<nat, BTPEventListener<V>>   // all listeners ever, by the step of their registration

    /** A listener's own state is what the history says. */
    ghost predicate Agrees(i: nat)
      requires i in made && i < |trace| && trace[i].Register?
      reads this, made[i]
    {
      && made[i].id == i && made[i].verifyF == trace[i].pred
      && match FateOf(trace, i)
         case Pending => made[i].sem == 0 && made[i].result == None
         case Released(r, _) => made[i].sem == 1 && made[i].result == r
    }

    /** There is a listener for each registration in the history. */
    ghost predicate Tracked()
      reads this
    {
      forall i: nat :: i in made <==> i < |trace| && trace[i].Register?
    }

    /** The lists hold exactly the waiting listeners, each once and under its key. */
    ghost predicate ListsWaiting()
      requires Tracked()
      reads this, made.Values
    {
      && (forall k <- listeners :: NoDup(listeners[k]))
      && (forall k <- listeners, l <- listeners[k] ::
            l.id in made && made[l.id] == l && trace[l.id].key == k && FateOf(trace, l.id).Pending?)
      && (forall i <- made | FateOf(trace, i).Pending? ::
            trace[i].key in listeners && made[i] in listeners[trace[i].key])
    }

    /**
     In every reachable state: each listener was released once or not at all, with the result that the
     history gives it, and the waiting ones are those in the lists.
     */
    ghost predicate Valid()
      reads this, made.Values
    {
      Tracked() && (forall i <- made :: Agrees(i)) && ListsWaiting()
    }

    /** The listeners that the step releases. */
    ghost function Hit(a: Action<V>): set<nat>
      requires Tracked()
      reads this
    {
      set i | i in made && FateOf(trace, i).Pending?
              && (a.Clear? || (a.Event? && a.key == trace[i].key && Wants(trace[i].pred, a.ret)))
    }

    /** Exactly the given listeners are released, with the event's value if there is one. */
    twostate predicate ReleasedOnly(hit: set<nat>, a: Action<V>)
      reads this, made.Values
    {
      && made == old(made)
      && forall i <- made ::
           && made[i].sem == old(made[i].sem) + (if i in hit then 1 else 0)
           && made[i].result == if i in hit && a.Event? then Some(a.ret) else old(made[i].result)
    }

    /** Releasing the listeners that a step hits keeps the listeners in line with the history. */
    twostate lemma StaysInLine(a: Action<V>)
      requires old(Valid()) && !a.Register?
      requires ReleasedOnly(old(Hit(a)), a) && Heard(a)
      ensures Tracked() && forall i <- made :: Agrees(i)
      ensures forall i <- made :: FateOf(trace, i).Pending? <==> FateOf(old(trace), i).Pending? && i !in old(Hit(a))
    {
      forall i <- made
        ensures Agrees(i) && (FateOf(trace, i).Pending? <==> FateOf(old(trace), i).Pending? && i !in old(Hit(a)))
      {
        FateFromSnoc(old(trace), a, i, i + 1);
        assert old(Agrees(i));
      }
    }

    /** One list was replaced by those of its listeners that did not want the value, in any order. */
    twostate predicate OnlyRebuilt(a: Action<V>)
      requires a.Event?
      reads this
    {
      && a.key in listeners && listeners == old(listeners)[a.key := listeners[a.key]] && NoDup(listeners[a.key])
      && (forall l <- listeners[a.key] :: l in Waiting(old(listeners), a.key) && !Wants(l.verifyF, a.ret))
      && forall l <- Waiting(old(listeners), a.key) :: Wants(l.verifyF, a.ret) || l in listeners[a.key]
    }

    twostate predicate Heard(a: Action<V>)
      reads this
    {
      trace == old(trace) + [a]
    }

    /** Rebuilding one list, in any order, without the released listeners keeps the lists right. */
    twostate lemma RebuiltList(a: Action<V>)
      requires old(Valid()) && a.Event? && Heard(a)
      requires ReleasedOnly(old(Hit(a)), a) && OnlyRebuilt(a)
      ensures Valid()
    {
      StaysInLine(a);
      forall k <- listeners, l <- listeners[k]
        ensures l.id in made && made[l.id] == l && trace[l.id].key == k && FateOf(trace, l.id).Pending?
      {
        assert k == a.key || l in old(listeners)[k];
        assert old(Agrees(l.id));
      }
      forall i <- made | FateOf(trace, i).Pending?
        ensures trace[i].key in listeners && made[i] in listeners[trace[i].key]
      {
        assert old(Agrees(i));
      }
    }

    /** A new listener for the action joined its list; the others are as before. */
    twostate predicate Enrolled(a: Action<V>)
      requires a.Register?
      reads this, made.Values
    {
      var n := |old(trace)|;
      && n in made && made == old(made)[n := made[n]]
      && made[n].id == n && made[n].verifyF == a.pred && made[n].sem == 0 && made[n].result == None
      && (forall i <- old(made) ::
            i in made && made[i].sem == old(made[i].sem) && made[i].result == old(made[i].result))
      && listeners == old(listeners)[a.key := Waiting(old(listeners), a.key) + [made[n]]]
    }

    /** A registration leaves every other listener in line, and the new one waits. */
    twostate lemma Joins(a: Action<V>)
      requires old(Valid()) && a.Register? && Heard(a) && Enrolled(a)
      ensures Tracked() && forall i <- made :: Agrees(i)
      ensures forall i <- made :: FateOf(trace, i).Pending? <==> i == |old(trace)| || FateOf(old(trace), i).Pending?
    {
      forall i <- made
        ensures Agrees(i)
        ensures FateOf(trace, i).Pending? <==> i == |old(trace)| || FateOf(old(trace), i).Pending?
      {
        if i < |old(trace)| {
          FateFromSnoc(old(trace), a, i, i + 1);
          assert old(Agrees(i));
        }
      }
    }

    twostate lemma JoinsItsList(a: Action<V>)
      requires old(Valid()) && a.Register? && Heard(a) && Enrolled(a)
      ensures Valid()
    {
      Joins(a);
      forall k <- listeners, l <- listeners[k]
        ensures l.id in made && made[l.id] == l && trace[l.id].key == k && FateOf(trace, l.id).Pending?
      {
        assert l == made[|old(trace)|] || l in old(listeners)[k];
      }
    }

    constructor ()
      ensures Valid() && trace == []
    {
      listeners, trace, made := map[], [], map[];
    }

    /** `wait_for_event`. */
    method WaitForEvent(svcId: byte, op: byte, f: Option<V -> bool>) returns (listener: BTPEventListener<V>)
      requires Valid()
      modifies this
      ensures Valid() && fresh(listener)
      ensures trace == old(trace) + [Register((svcId, op), f)]
      ensures made == old(made)[|old(trace)| := listener]
    {
      var key := (svcId, op);
      listener := new BTPEventListener(f, |trace|);
      listeners := listeners[key := Waiting(listeners, key) + [listener]];
      made := made[|trace| := listener];
      trace := trace + [Register(key, f)];
      JoinsItsList(Register(key, f));
    }

    /** The loop over one list: those that want the result take it and are released. */
    method Deliver(list: seq<BTPEventListener<V>>, ret: V) returns (toRemove: set<BTPEventListener<V>>)
      requires NoDup(list)
      modifies list
      ensures forall l <- list :: l in toRemove <==> Wants(l.verifyF, ret)
      ensures forall l <- toRemove :: l in list
      ensures forall l <- list :: l.sem == old(l.sem) + if l in toRemove then 1 else 0
      ensures forall l <- list :: l.result == if l in toRemove then Some(ret) else old(l.result)
    {
      toRemove := {};
      for i := 0 to |list|
        invariant forall j | 0 <= j < i :: list[j] in toRemove <==> Wants(list[j].verifyF, ret)
        invariant forall l <- toRemove :: l in list[..i]
        invariant forall j | 0 <= j < i ::
            && list[j].sem == old(list[j].sem) + (if list[j] in toRemove then 1 else 0)
            && list[j].result == if list[j] in toRemove then Some(ret) else old(list[j].result)
        invariant forall j | i <= j < |list| :: list[j].sem == old(list[j].sem) && list[j].result == old(list[j].result)
      {
        var listener := list[i];
        assert listener !in list[..i];
        var verified := listener.Verify(ret);
        if verified {
          listener.Release();
          toRemove := toRemove + {listener};
        }
      }
    }

    /**
     `__call__`, given what the callback for the event returns, if there is one. Without a stack or a
     callback the event is declined; a callback that raises changes no listener.
     */
    method Call(stackUp: bool, key: Key, cb: Option<Result<V>>) returns (v: Verdict)
      requires Valid()
      modifies this, made.Values
      ensures Valid() && made == old(made)
      ensures v == if !stackUp || cb.None? then NotHandled else if cb.value.Err? then Raised else Handled
      ensures trace == old(trace) + if v.Handled? then [Event(key, cb.value.value)] else []
    {
      if !stackUp || cb.None? {
        return NotHandled;
      }
      if cb.value.Err? {
        return Raised;
      }
      Notify(key, cb.value.value);
      return Handled;
    }

    /** The part of `__call__` behind the callback. */
    method Notify(key: Key, ret: V)
      requires Valid()
      modifies this, made.Values
      ensures Valid() && made == old(made) && trace == old(trace) + [Event(key, ret)]
    {
      var rest := DeliverTo(key, ret);
      listeners := listeners[key := rest];
      trace := trace + [Event(key, ret)];
      RebuiltList(Event(key, ret));
    }

    /** Verifies and releases the listeners of one list, and returns the others in any order. */
    method DeliverTo(key: Key, ret: V) returns (rest: seq<BTPEventListener<V>>)
      requires Valid()
      modifies made.Values
      ensures ReleasedOnly(old(Hit(Event(key, ret))), Event(key, ret))
      ensures NoDup(rest)
      ensures forall l :: l in rest <==> l in Waiting(listeners, key) && !Wants(l.verifyF, ret)
    {
      var list := Waiting(listeners, key);
      forall l | l in list ensures l in made.Values && l.id in made && made[l.id] == l {
        assert made[l.id] == l;
      }
      var toRemove := Deliver(list, ret);
      HitIsRemoved(Event(key, ret));
      rest := ListOf((set l | l in list) - toRemove);
    }

    /** Exactly the listeners in the list that want the value took it. */
    twostate predicate Took(a: Action<V>)
      requires a.Event?
      reads this, made.Values
    {
      && made == old(made) && trace == old(trace)
      && forall i <- made ::
           var took := made[i] in Waiting(old(listeners), a.key) && Wants(made[i].verifyF, a.ret);
           && made[i].sem == old(made[i].sem) + (if took then 1 else 0)
           && made[i].result == if took then Some(a.ret) else old(made[i].result)
    }

    twostate lemma HitIsRemoved(a: Action<V>)
      requires old(Valid()) && a.Event? && Took(a)
      ensures ReleasedOnly(old(Hit(a)), a)
    {
      forall i <- made
        ensures i in old(Hit(a)) <==> made[i] in Waiting(old(listeners), a.key) && Wants(made[i].verifyF, a.ret)
      {
        assert old(Agrees(i));
      }
    }

    /** The loop over all lists: every waiting listener is released without a result. */
    method ReleaseAll(list: seq<BTPEventListener<V>>)
      requires NoDup(list)
      modifies list
      ensures forall l <- list :: l.sem == old(l.sem) + 1 && l.result == old(l.result)
    {
      for i := 0 to |list|
        invariant forall j | 0 <= j < i :: list[j].sem == old(list[j].sem) + 1
        invariant forall j | i <= j < |list| :: list[j].sem == old(list[j].sem)
        invariant forall l <- list :: l.result == old(l.result)
      {
        assert list[i] !in list[..i];
        list[i].Release();
      }
    }

    /** `clear_listeners`. */
    method ClearListeners()
      requires Valid()
      modifies this, made.Values
      ensures Valid() && made == old(made)
      ensures trace == old(trace) + [Clear]
    {
      ghost var a: Action<V> := Clear;
      var todo := listeners.Keys;
      while todo != {}
        modifies made.Values
        invariant todo <= listeners.Keys
        invariant forall i <- made ::
            var cleared := trace[i].key !in todo && FateOf(trace, i).Pending?;
            made[i].sem == old(made[i].sem) + (if cleared then 1 else 0) && made[i].result == old(made[i].result)
      {
        var key :| key in todo;
        var list := listeners[key];
        forall l | l in list ensures l in made.Values && l.id in made && made[l.id] == l && trace[l.id].key == key {
          assert made[l.id] == l;
        }
        ReleaseAll(list);
        todo := todo - {key};
      }
      assert ReleasedOnly(old(Hit(a)), a);
      listeners := map[];
      trace := trace + [a];
      StaysInLine(a);
    }

    /**
     In every reachable state: a listener was released at most once; it waits in the list of its key exactly
     if no step since its registration released it, and otherwise holds what the first such step gave it.
     */
    lemma FirstMatchAtMostOnce(i: nat)
      requires Valid() && i in made
      ensures made[i].sem <= 1
      ensures made[i].sem == 0 <==> trace[i].key in listeners && made[i] in listeners[trace[i].key]
      ensures made[i].sem == 0 <==> forall j | i < j < |trace| :: !Releases(trace, i, j)
      ensures made[i].result.Some? && made[i].verifyF.Some? ==> made[i].verifyF.value(made[i].result.value)
      ensures made[i].sem == 0 && made[i].verifyF.Some? ==>
                forall j | i < j < |trace| && trace[j].Event? && trace[j].key == trace[i].key ::
                  !made[i].verifyF.value(trace[j].ret)
      ensures made[i].sem == 0 && made[i].verifyF.None? ==>
                forall j | i < j < |trace| && trace[j].Event? :: trace[j].key != trace[i].key
      ensures made[i].sem == 1 ==>
                exists j :: i < j < |trace| && Releases(trace, i, j) && (forall k | i < k < j :: !Releases(trace, i, k))
                  && made[i].result == if trace[j].Clear? then None else Some(trace[j].ret)
    {
      FateIsFirstMatch(trace, i);
      assert Agrees(i);
      assert FateOf(trace, i).Pending? ==>
          forall j | i < j < |trace| && trace[j].Event? && trace[j].key == trace[i].key :: !Releases(trace, i, j);
      if trace[i].key in listeners && made[i] in listeners[trace[i].key] {
        assert FateOf(trace, made[i].id).Pending?;
      }
    }
  }
}
