/**
 The settings cache against a device that reports its full mask, in the single steps of the two threads
 that write it (pybtp/btp.py): the test thread applies the answer to its command flag by flag, and so does
 the receiver thread with a NEW_SETTINGS event.
 */
module SettingsRuns {
  import opened Bytes
  import opened Settings

  /** The flags by bit number; no two bits share a dictionary entry, as Settings.NamesDiffer says. */
  type Cache = c: seq<bool> | |c| == 16 witness seq(16, i => false)

  /** What the device sends: the answer to a command, or a NEW_SETTINGS event. */
  datatype Message = Response(mask: nat) | NewSettings(mask: nat)

  /** An update loop: over, or about to write the next bit of a mask. */
  datatype Loop = Done | Writing(mask: nat, next: nat)

  datatype Source = Source(mask: nat, isAnswer: bool)

  /**
   The device, what it sent and the host did not receive, the host's response queue and its cache, and
   the loops of the receiver and of the test thread. last is history: which loop wrote a bit last.
   */
  datatype State = State(
    device: nat,
    wire: seq<Message>,
    queue: seq<nat>,
    cache: Cache,
    event: Loop,
    answer: Loop,
    last: map<nat, Source>)

  datatype Label =
    | Call(cmd: Command, mask: nat)   // the device obeys and answers with its mask then; the guard was read before
    | Skip(cmd: Command)              // the guard says that nothing is to be sent
    | Change(mask: nat)               // the device changes and tells
    | Receive                         // a response is queued, or the loop over an event's mask begins
    | EventBit
    | Dequeue                         // the test thread takes its answer, and its loop begins
    | AnswerBit

  /** The test thread is waiting for the answer to its last command, or applies it. */
  predicate Busy(s: State) {
    s.queue != [] || s.answer.Writing? || exists m <- s.wire :: m.Response?
  }

  predicate Enabled(s: State, l: Label) {
    match l
    case Call(cmd, mask) => !Busy(s) && cmd.Met(mask) && (cmd.ReadInfo? ==> mask == s.device)
    case Skip(cmd) => !Busy(s) && cmd.SkipsAt(s.cache[cmd.Setting()])
    case Change(_) => true
    case Receive => s.wire != [] && s.event.Done?
    case EventBit => s.event.Writing? && s.event.next < 16
    case Dequeue => s.queue != [] && s.answer.Done?
    case AnswerBit => s.answer.Writing? && s.answer.next < 16
  }

  function Advance(loop: Loop): Loop
    requires loop.Writing?
  {
    if loop.next >= 15 then Done else loop.(next := loop.next + 1)
  }

  function After(s: State, l: Label): State
    requires Enabled(s, l)
  {
    match l
    case Call(_, mask) => s.(device := mask, wire := s.wire + [Response(mask)])
    case Skip(_) => s
    case Change(mask) => s.(device := mask, wire := s.wire + [NewSettings(mask)])
    case Receive =>
      (match s.wire[0]
       case Response(mask) => s.(wire := s.wire[1..], queue := s.queue + [mask])
       case NewSettings(mask) => s.(wire := s.wire[1..], event := Writing(mask, 0)))
    case EventBit => Write(s, s.event, false).(event := Advance(s.event))
    case Dequeue => s.(queue := s.queue[1..], answer := Writing(s.queue[0], 0))
    case AnswerBit => Write(s, s.answer, true).(answer := Advance(s.answer))
  }

  /** One flag of the cache is written. */
  function Write(s: State, loop: Loop, isAnswer: bool): State
    requires loop.Writing? && loop.next < 16
  {
    s.(cache := s.cache[loop.next := Bit(loop.mask, loop.next)],
       last := s.last[loop.next := Source(loop.mask, isAnswer)])
  }

  predicate Runs(s: State, ls: seq<Label>)
    decreases |ls|
  {
    ls == [] || (Enabled(s, ls[0]) && Runs(After(s, ls[0]), ls[1..]))
  }

  function End(s: State, ls: seq<Label>): State
    requires Runs(s, ls)
    decreases |ls|
  {
    if ls == [] then s else End(After(s, ls[0]), ls[1..])
  }

  /** Everything was received and applied. */
  predicate Quiet(s: State) {
    s.wire == [] && s.queue == [] && s.event.Done? && s.answer.Done?
  }

  predicate Mirrors(cache: Cache, mask: nat) {
    forall i | 0 <= i < 16 :: cache[i] == Bit(mask, i)
  }

  predicate Sends(l: Label) {
    l.Call? || l.Change?
  }

  // ---- The cache and the dictionary ----

  /** The flags of the dictionary, by bit number. */
  predicate Shows(flags: map<string, bool>, cache: Cache) {
    flags.Keys == UNREAD.Keys && forall i | 0 <= i < 16 :: NAMES[i] in flags && flags[NAMES[i]] == cache[i]
  }

  /** Setting one entry changes one flag: that is what a step of an update loop does. */
  lemma EntryIsFlag(flags: map<string, bool>, cache: Cache, i: nat, value: bool)
    requires Shows(flags, cache) && i < 16
    ensures Shows(flags[NAMES[i] := value], cache[i := value])
  {
    NamesDiffer();
    assert NAMES[i] in flags;
    assert forall j | 0 <= j < 16 && j != i :: NAMES[j] != NAMES[i];
  }

  lemma DictionaryMirrors(flags: map<string, bool>, cache: Cache, mask: nat)
    requires Shows(flags, cache)
    ensures flags == Flags(mask) <==> Mirrors(cache, mask)
  {
    FlagsAt(mask);
    UpdateIsFull(flags, mask);
    if Mirrors(cache, mask) {
      forall k <- flags ensures flags[k] == Flags(mask)[k] {
        assert k in NAMES;
      }
    }
  }

  // ---- Exactly when the cache is right ----

  predicate LoopIsRight(loop: Loop) {
    loop.Writing? ==> loop.next < 16
  }

  /** The bit is still to be written by a loop. */
  predicate Before(loop: Loop, i: nat) {
    loop.Writing? && loop.next <= i
  }

  /** The answer to the last command is still to write the bit. */
  predicate AnswerAhead(s: State, i: nat) {
    s.queue != [] || Before(s.answer, i)
  }

  /** The last message under way has the device's mask. */
  predicate NewestIsDevice(s: State) {
    if s.wire != [] then s.wire[|s.wire| - 1].mask == s.device
    else s.event.Writing? ==> s.event.mask == s.device
  }

  /** A bit that an event wrote last, with nothing to come, is the device's. */
  predicate EventIsRight(s: State, i: nat) {
    i in s.last && !s.last[i].isAnswer && s.wire == [] && !Before(s.event, i) && !AnswerAhead(s, i) ==>
      Bit(s.last[i].mask, i) == Bit(s.device, i)
  }

  predicate LastIsRight(s: State, i: nat)
    requires i < 16
  {
    i in s.last ==> s.cache[i] == Bit(s.last[i].mask, i)
  }

  predicate Inv(s: State) {
    && LoopIsRight(s.event) && LoopIsRight(s.answer) && NewestIsDevice(s)
    && forall i | 0 <= i < 16 :: LastIsRight(s, i) && EventIsRight(s, i)
  }

  lemma StepKeeps(s: State, l: Label)
    requires Inv(s) && Enabled(s, l)
    ensures Inv(After(s, l))
  {
    var t := After(s, l);
    if l.Receive? && |s.wire| > 1 {
      assert t.wire[|t.wire| - 1] == s.wire[|s.wire| - 1];
    }
    forall i | 0 <= i < 16 ensures LastIsRight(t, i) && EventIsRight(t, i) {
      assert LastIsRight(s, i) && EventIsRight(s, i);
    }
  }

  lemma {:induction false} RunKeeps(s: State, ls: seq<Label>)
    requires Inv(s) && Runs(s, ls)
    ensures Inv(End(s, ls))
    decreases |ls|
  {
    if ls != [] {
      StepKeeps(s, ls[0]);
      RunKeeps(After(s, ls[0]), ls[1..]);
    }
  }

  /** The bit was written, or will be. */
  predicate Reached(s: State, i: nat) {
    i in s.last || s.wire != [] || Before(s.event, i) || AnswerAhead(s, i)
  }

  lemma {:induction false} ReachedStays(s: State, ls: seq<Label>, i: nat)
    requires Runs(s, ls) && i < 16 && Reached(s, i) && LoopIsRight(s.event) && LoopIsRight(s.answer)
    ensures Reached(End(s, ls), i)
    decreases |ls|
  {
    if ls != [] {
      ReachedStays(After(s, ls[0]), ls[1..], i);
    }
  }

  lemma {:induction false} SentIsReached(s: State, ls: seq<Label>, i: nat)
    requires Runs(s, ls) && i < 16 && LoopIsRight(s.event) && LoopIsRight(s.answer) && exists l <- ls :: Sends(l)
    ensures Reached(End(s, ls), i)
    decreases |ls|
  {
    if Sends(ls[0]) {
      ReachedStays(After(s, ls[0]), ls[1..], i);
    } else {
      var l :| l in ls && Sends(l);
      assert l in ls[1..];
      SentIsReached(After(s, ls[0]), ls[1..], i);
    }
  }

  /** Every flag that an answer wrote last is as the last message says. */
  predicate AnswersAgree(s: State) {
    forall i | 0 <= i < 16 && i in s.last && s.last[i].isAnswer :: Bit(s.last[i].mask, i) == Bit(s.device, i)
  }

  /**
   The cache against the device, over all interleavings of the two loops. From a quiet state with any cache,
   and after at least one command or change, once everything was received and applied: the sixteen flags
   are the device's if and only if every flag that the test thread wrote last, from an answer, is as the
   device's mask has it now. What the receiver thread wrote last, from an event, is always right.
   */
  lemma CoherentExactly(s: State, ls: seq<Label>)
    requires Quiet(s) && s.last == map[] && Runs(s, ls) && Quiet(End(s, ls)) && exists l <- ls :: Sends(l)
    ensures Mirrors(End(s, ls).cache, End(s, ls).device) <==> AnswersAgree(End(s, ls))
  {
    var t := End(s, ls);
    RunKeeps(s, ls);
    forall i | 0 <= i < 16 ensures i in t.last && LastIsRight(t, i) && EventIsRight(t, i) {
      SentIsReached(s, ls, i);
    }
    if Mirrors(t.cache, t.device) {
      forall i | 0 <= i < 16 ensures Bit(t.last[i].mask, i) == Bit(t.device, i) {
        assert t.cache[i] == Bit(t.device, i) && LastIsRight(t, i);
      }
    }
  }

  // ---- The answer and the event that overlap ----

  /** The answer that was received and is not fully applied. */
  function Outstanding(s: State): Option<nat> {
    if s.queue != [] then Some(s.queue[0])
    else if s.answer.Writing? then Some(s.answer.mask)
    else None
  }

  /** At most one answer is under way. */
  predicate OneAnswer(s: State) {
    && |s.queue| <= 1
    && (s.queue != [] ==> s.answer.Done?)
    && (s.queue != [] || s.answer.Writing? ==> forall m <- s.wire :: m.NewSettings?)
    && (forall i, j | 0 <= i < j < |s.wire| :: s.wire[i].NewSettings? || s.wire[j].NewSettings?)
  }

  lemma {:induction false} OneAnswerStays(s: State, ls: seq<Label>)
    requires Runs(s, ls) && OneAnswer(s)
    ensures OneAnswer(End(s, ls))
    decreases |ls|
  {
    if ls != [] {
      assert s.wire != [] ==> s.wire[0] in s.wire;
      OneAnswerStays(After(s, ls[0]), ls[1..]);
    }
  }

  predicate Silent(ls: seq<Label>) {
    forall l <- ls :: !Sends(l)
  }

  /** With nothing on the wire: all that can still be applied is the event's mask and one answer. */
  predicate LastTwo(s: State, answer: nat, event: nat) {
    && s.wire == [] && |s.queue| <= 1 && (s.queue != [] ==> s.queue[0] == answer && s.answer.Done?)
    && (s.answer.Writing? ==> s.answer.mask == answer)
    && (s.event.Writing? ==> s.event.mask == event)
    && forall i | 0 <= i < 16 && i in s.last && !Before(s.event, i) && s.last[i].isAnswer :: s.last[i].mask == answer
  }

  lemma {:induction false} LastTwoStays(s: State, ls: seq<Label>, answer: nat, event: nat)
    requires Runs(s, ls) && Silent(ls) && Inv(s) && LastTwo(s, answer, event)
    ensures LastTwo(End(s, ls), answer, event) && End(s, ls).device == s.device
    decreases |ls|
  {
    if ls != [] {
      assert ls[0] in ls && forall l <- ls[1..] :: l in ls;
      StepKeeps(s, ls[0]);
      LastTwoStays(After(s, ls[0]), ls[1..], answer, event);
    }
  }

  /** The test thread writes the bit, and the receiver does not write it after that. */
  predicate AnswerWritesLast(s: State, ls: seq<Label>, i: nat)
    requires Runs(s, ls)
  {
    i in End(s, ls).last && End(s, ls).last[i].isAnswer
  }

  /**
   What a last event does. Take the state in which the receiver takes up the last message, an event, and let
   b be the rest, up to where all is applied. The cache is the device's if and only if no answer was being
   waited for or applied then, or no bit on which that answer and the event differ is written by the answer
   after the event has written it.
   */
  lemma LastEventDecides(s: State, a: seq<Label>, b: seq<Label>)
    requires Quiet(s) && s.last == map[] && Runs(s, a) && Enabled(End(s, a), Receive)
    requires |End(s, a).wire| == 1 && End(s, a).wire[0].NewSettings?
    requires Runs(After(End(s, a), Receive), b) && Silent(b) && Quiet(End(After(End(s, a), Receive), b))
    ensures var u := End(s, a);
            var t := After(u, Receive);
            Mirrors(End(t, b).cache, End(t, b).device) <==>
            Outstanding(u).None? ||
            forall i | 0 <= i < 16 && AnswerWritesLast(t, b, i) ::
              Bit(Outstanding(u).value, i) == Bit(u.wire[0].mask, i)
  {
    var u := End(s, a);
    var t := After(u, Receive);
    RunKeeps(s, a);
    OneAnswerStays(s, a);
    StepKeeps(u, Receive);
    RunKeeps(t, b);
    var answer := if Outstanding(u).Some? then Outstanding(u).value else 0;
    LastTwoStays(t, b, answer, u.wire[0].mask);
    var w := End(t, b);
    forall i | 0 <= i < 16 ensures i in w.last && LastIsRight(w, i) && EventIsRight(w, i) {
      ReachedStays(t, b, i);
    }
    if Outstanding(u).None? {
      NoAnswerLeft(t, b);
    }
    MirrorsByLast(w);
  }

  lemma MirrorsByLast(s: State)
    requires Inv(s) && Quiet(s) && forall i | 0 <= i < 16 :: i in s.last
    ensures Mirrors(s.cache, s.device) <==> AnswersAgree(s)
  {
    forall i | 0 <= i < 16 ensures s.cache[i] == Bit(s.last[i].mask, i) && EventIsRight(s, i) {
      assert LastIsRight(s, i);
    }
  }

  /** All that is left to apply is the event. */
  predicate OnlyEvent(s: State) {
    && s.wire == [] && Outstanding(s).None? && LoopIsRight(s.event)
    && forall i | 0 <= i < 16 && !Before(s.event, i) :: i in s.last && !s.last[i].isAnswer
  }

  lemma StaysOnlyEvent(s: State, l: Label)
    requires OnlyEvent(s) && Enabled(s, l) && !Sends(l)
    ensures OnlyEvent(After(s, l))
  {
    var t := After(s, l);
    forall i | 0 <= i < 16 && !Before(t.event, i) ensures i in t.last && !t.last[i].isAnswer {
      assert !Before(s.event, i) || (l.EventBit? && s.event.next == i);
    }
  }

  lemma {:induction false} NoAnswerLeft(s: State, ls: seq<Label>)
    requires Runs(s, ls) && Silent(ls) && OnlyEvent(s)
    ensures OnlyEvent(End(s, ls))
    decreases |ls|
  {
    if ls != [] {
      assert ls[0] in ls && forall l <- ls[1..] :: l in ls;
      StaysOnlyEvent(s, ls[0]);
      NoAnswerLeft(After(s, ls[0]), ls[1..]);
    }
  }

  /** All that is left to apply is the answer, and it is the device's mask. */
  predicate OnlyAnswer(s: State) {
    && s.wire == [] && s.event.Done? && |s.queue| <= 1 && (s.queue != [] ==> s.answer.Done? && s.queue[0] == s.device)
    && (s.answer.Writing? ==> s.answer.mask == s.device)
    && forall i | 0 <= i < 16 && !AnswerAhead(s, i) :: s.cache[i] == Bit(s.device, i)
  }

  lemma {:induction false} OnlyAnswerStays(s: State, ls: seq<Label>)
    requires Runs(s, ls) && Silent(ls) && OnlyAnswer(s) && LoopIsRight(s.answer)
    ensures OnlyAnswer(End(s, ls))
    decreases |ls|
  {
    if ls != [] {
      assert ls[0] in ls && forall l <- ls[1..] :: l in ls;
      OnlyAnswerStays(After(s, ls[0]), ls[1..]);
    }
  }

  /** A last message that is an answer always leaves the cache right. */
  lemma LastAnswerIsRight(s: State, a: seq<Label>, b: seq<Label>)
    requires Quiet(s) && s.last == map[] && Runs(s, a) && Enabled(End(s, a), Receive)
    requires |End(s, a).wire| == 1 && End(s, a).wire[0].Response?
    requires Runs(After(End(s, a), Receive), b) && Silent(b) && Quiet(End(After(End(s, a), Receive), b))
    ensures var w := End(After(End(s, a), Receive), b); Mirrors(w.cache, w.device)
  {
    RunKeeps(s, a);
    OneAnswerStays(s, a);
    assert End(s, a).wire[0] in End(s, a).wire;
    OnlyAnswerStays(After(End(s, a), Receive), b);
  }

  // ---- Runs without overlap ----

  /** An event is taken up while an answer is queued or being applied. */
  predicate Overlaps(s: State, l: Label) {
    l.Receive? && s.wire != [] && s.wire[0].NewSettings? && Outstanding(s).Some?
  }

  predicate Ordered(s: State, ls: seq<Label>)
    requires Runs(s, ls)
    decreases |ls|
  {
    ls == [] || (!Overlaps(s, ls[0]) && Ordered(After(s, ls[0]), ls[1..]))
  }

  /** The value of the bit once everything sent so far is applied. */
  function Final(s: State, i: nat): bool
    requires i < 16
  {
    if s.wire != [] then Bit(s.wire[|s.wire| - 1].mask, i)
    else if Before(s.event, i) then Bit(s.event.mask, i)
    else if s.queue != [] then Bit(s.queue[|s.queue| - 1], i)
    else if Before(s.answer, i) then Bit(s.answer.mask, i)
    else s.cache[i]
  }

  predicate Coherent(s: State) {
    && LoopIsRight(s.event) && LoopIsRight(s.answer) && OneAnswer(s) && (s.event.Done? || Outstanding(s).None?)
    && forall i | 0 <= i < 16 :: Final(s, i) == Bit(s.device, i)
  }

  lemma StaysCoherent(s: State, l: Label)
    requires Coherent(s) && Enabled(s, l) && !Overlaps(s, l)
    ensures Coherent(After(s, l))
  {
    var t := After(s, l);
    OneStepOneAnswer(s, l);
    if l.Receive? && |s.wire| > 1 {
      assert t.wire[|t.wire| - 1] == s.wire[|s.wire| - 1];
    }
    forall i | 0 <= i < 16 ensures Final(t, i) == Bit(t.device, i) {
      assert Final(s, i) == Bit(s.device, i);
    }
  }

  lemma OneStepOneAnswer(s: State, l: Label)
    requires OneAnswer(s) && Enabled(s, l)
    ensures OneAnswer(After(s, l))
  {
    assert s.wire != [] ==> s.wire[0] in s.wire;
  }

  lemma {:induction false} CoherentRuns(s: State, ls: seq<Label>)
    requires Coherent(s) && Runs(s, ls) && Ordered(s, ls)
    ensures Coherent(End(s, ls))
    decreases |ls|
  {
    if ls != [] {
      StaysCoherent(s, ls[0]);
      CoherentRuns(After(s, ls[0]), ls[1..]);
    }
  }

  lemma {:induction false} CoherentOnceSent(s: State, ls: seq<Label>)
    requires LoopIsRight(s.event) && LoopIsRight(s.answer) && OneAnswer(s) && (s.event.Done? || Outstanding(s).None?)
    requires Runs(s, ls) && Ordered(s, ls) && exists l <- ls :: Sends(l)
    ensures Coherent(End(s, ls))
    decreases |ls|
  {
    var t := After(s, ls[0]);
    OneStepOneAnswer(s, ls[0]);
    if Sends(ls[0]) {
      assert t.wire[|s.wire|].mask == t.device;
      CoherentRuns(t, ls[1..]);
    } else {
      var l :| l in ls && Sends(l);
      assert l in ls[1..];
      CoherentOnceSent(t, ls[1..]);
    }
  }

  /**
   Cache coherence: from a quiet state with any cache, in a run in which no event is taken up while an answer
   is queued or being applied, and with at least one command or change, the flags are the device's once
   everything was received and applied. A command is then skipped exactly if the device is as requested.
   */
  lemma CacheIsCoherent(s: State, ls: seq<Label>, cmd: Command)
    requires Quiet(s) && Runs(s, ls) && Ordered(s, ls) && Quiet(End(s, ls)) && exists l <- ls :: Sends(l)
    ensures Mirrors(End(s, ls).cache, End(s, ls).device)
    ensures Enabled(End(s, ls), Skip(cmd)) <==> cmd.Guarded() && cmd.Met(End(s, ls).device)
  {
    CoherentOnceSent(s, ls);
    var t := End(s, ls);
    assert forall i | 0 <= i < 16 :: Final(t, i) == t.cache[i];
  }

  // ---- Schedules in which the two loops meet ----

  lemma {:induction false} Concat(s: State, a: seq<Label>, b: seq<Label>)
    requires Runs(s, a) && Runs(End(s, a), b)
    ensures Runs(s, a + b) && End(s, a + b) == End(End(s, a), b)
    decreases |a|
  {
    if a == [] {
      assert a + b == b;
    } else {
      assert (a + b)[0] == a[0] && (a + b)[1..] == a[1..] + b;
      Concat(After(s, a[0]), a[1..], b);
    }
  }

  /** The cache with the bits from low to high written from a mask. */
  function Over(cache: Cache, mask: nat, low: nat, high: nat): Cache {
    seq(16, i requires 0 <= i < 16 => if low <= i < high then Bit(mask, i) else cache[i])
  }

  /** The test thread goes on with its loop up to a bit, and nothing else happens. */
  lemma AnswerBits(s: State, high: nat) returns (ls: seq<Label>)
    requires s.answer.Writing? && s.answer.next <= high <= 16 && s.answer.next < 16
    ensures Runs(s, ls) && (forall l <- ls :: l == AnswerBit)
    ensures var t := End(s, ls);
            && t == s.(cache := t.cache, answer := t.answer, last := t.last)
            && t.cache == Over(s.cache, s.answer.mask, s.answer.next, high)
            && t.answer == if high == 16 then Done else Writing(s.answer.mask, high)
    decreases high - s.answer.next
  {
    if s.answer.next == high {
      ls := [];
      assert s.cache == Over(s.cache, s.answer.mask, high, high);
    } else {
      var t := After(s, AnswerBit);
      if s.answer.next == 15 {
        ls := [];
        assert t.cache == Over(s.cache, s.answer.mask, 15, 16);
      } else {
        ls := AnswerBits(t, high);
        assert Over(t.cache, s.answer.mask, s.answer.next + 1, high) ==
            Over(s.cache, s.answer.mask, s.answer.next, high);
      }
      assert ([AnswerBit] + ls)[1..] == ls;
      ls := [AnswerBit] + ls;
    }
  }

  /** The receiver finishes its loop, and nothing else happens. */
  lemma EventBits(s: State) returns (ls: seq<Label>)
    requires s.event.Writing? && s.event.next < 16
    ensures Runs(s, ls) && (forall l <- ls :: l == EventBit)
    ensures var t := End(s, ls);
            t == s.(cache := Over(s.cache, s.event.mask, s.event.next, 16), event := Done, last := t.last)
    decreases 16 - s.event.next
  {
    var t := After(s, EventBit);
    if s.event.next == 15 {
      ls := [];
      assert t.cache == Over(s.cache, s.event.mask, 15, 16);
    } else {
      ls := EventBits(t);
      assert Over(t.cache, s.event.mask, s.event.next + 1, 16) == Over(s.cache, s.event.mask, s.event.next, 16);
    }
    assert ([EventBit] + ls)[1..] == ls;
    ls := [EventBit] + ls;
  }

  /** A command is answered, the device changes, and the event is handled between two bits of the answer. */
  lemma Interleaved(s: State, cmd: Command, answer: nat, change: nat, k: nat) returns (ls: seq<Label>)
    requires Quiet(s) && k < 16 && !cmd.ReadInfo? && cmd.Met(answer)
    ensures Runs(s, ls) && Quiet(End(s, ls)) && End(s, ls).device == change
    ensures forall i | 0 <= i < 16 :: End(s, ls).cache[i] == Bit(if i < k then change else answer, i)
    ensures forall l <- ls | Sends(l) :: l.mask == answer || l.mask == change
  {
    var begin := [Call(cmd, answer), Change(change), Receive, Dequeue];
    var s1 := Begun(s, cmd, answer, change);
    var one := AnswerBits(s1, k);
    var s2 := End(s1, one);
    assert Runs(s2, [Receive]);
    var s3 := End(s2, [Receive]);
    var two := EventBits(s3);
    var s4 := End(s3, two);
    var three := AnswerBits(s4, 16);
    Concat(s3, two, three);
    Concat(s2, [Receive], two + three);
    Concat(s1, one, [Receive] + (two + three));
    Concat(s, begin, one + ([Receive] + (two + three)));
    ls := begin + (one + ([Receive] + (two + three)));
  }

  lemma Begun(s: State, cmd: Command, answer: nat, change: nat) returns (t: State)
    requires Quiet(s) && !cmd.ReadInfo? && cmd.Met(answer)
    ensures var begin := [Call(cmd, answer), Change(change), Receive, Dequeue]; Runs(s, begin) && t == End(s, begin)
    ensures t == s.(device := change, wire := [NewSettings(change)], answer := Writing(answer, 0))
  {
    var s1 := After(s, Call(cmd, answer));
    var s2 := After(s1, Change(change));
    assert s2.wire == [Response(answer), NewSettings(change)];
    var s3 := After(s2, Receive);
    assert s3.wire == [NewSettings(change)] && s3.queue == [answer];
    t := After(s3, Dequeue);
    assert t.queue == [];
    assert Runs(s3, [Dequeue]) && End(s3, [Dequeue]) == t;
    Concat(s2, [Receive], [Dequeue]);
    Concat(s1, [Change(change)], [Receive] + [Dequeue]);
    Concat(s, [Call(cmd, answer)], [Change(change)] + ([Receive] + [Dequeue]));
    assert [Call(cmd, answer)] + ([Change(change)] + ([Receive] + [Dequeue]))
        == [Call(cmd, answer), Change(change), Receive, Dequeue];
  }

  const START := State(0, [], [], seq(16, i => false), Done, Done, map[])

  lemma LowBits()
    ensures Pow2(0) == 1 && Pow2(1) == 2
    ensures !Bit(0, 0) && !Bit(0, 1) && Bit(2, 1) && !Bit(2, 0) && Bit(1, 0) && !Bit(1, 1)
  {
  }

  /**
   No event overtakes a queued answer here, and still: the device was made connectable, and is not any more,
   and the next request to make it so is skipped, as the answer was applied after the event.
   */
  lemma LateAnswerMisleads()
    ensures exists ls :: Runs(START, ls) && Quiet(End(START, ls))
              && Enabled(End(START, ls), Skip(SetConn)) && !SetConn.Met(End(START, ls).device)
  {
    LowBits();
    var ls := Interleaved(START, SetConn, 2, 0, 0);
    assert End(START, ls).cache[1] == Bit(2, 1);
  }

  /** The device's masks are 0, 2 and 1 here, and the two loops leave both bits set. */
  lemma FlagsThatNeverWere()
    ensures exists ls :: Runs(START, ls) && Quiet(End(START, ls)) && End(START, ls).cache[0] && End(START, ls).cache[1]
              && forall l <- ls | Sends(l) :: l.mask == 2 || l.mask == 1
  {
    LowBits();
    var ls := Interleaved(START, SetConn, 2, 1, 1);
    assert End(START, ls).cache[0] == Bit(1, 0) && End(START, ls).cache[1] == Bit(2, 1);
  }
}
