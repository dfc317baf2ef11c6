/** The watch keys of the macOS watch service: each has a bounded queue of events, and all share the
    queue of ready keys. Adding and polling hold the lock of the key; taking a ready key does not. */
module MacOSXWatchServices {
  import opened Entries

  datatype EventKind = CREATE | DELETE | MODIFY

  datatype WatchEvent = FileEvent(kind: EventKind, context: Path) | Overflow(count: int)

  type Key = nat

  /** Where the thread that holds the lock of a key is in `addEvent`: nowhere; past a successful
      `offer`; or past a check that did not find the key among the ready ones. */
  datatype Phase = Unlocked | Offered | NotFound

  datatype KeyState = KeyState(capacity: nat, events: seq<WatchEvent>, overflow: int, phase: Phase)

  /** The keys, the ready queue, and the keys taken since they were last polled. */
  datatype State = State(keys: map<Key, KeyState>, ready: seq<Key>, taken: set<Key>)

  // ----- one key

  /** `offer`, or else one more overflow. */
  function OfferTo(key: KeyState, event: WatchEvent): KeyState {
    if |key.events| < key.capacity then key.(events := key.events + [event], phase := Offered)
    else key.(overflow := Wrap(key.overflow + 1))
  }

  /** What `pollEvents` returns: the queue, and then the number of events it had no room for. */
  function Polled(key: KeyState): seq<WatchEvent> {
    key.events + if key.overflow != 0 then [Overflow(key.overflow)] else []
  }

  function Drained(key: KeyState): KeyState {
    key.(events := [], overflow := 0)
  }

  // ----- steps

  /** The steps of `addEvent` are `Offer`, and when that succeeds `Check` and perhaps `Enqueue`, under
      the lock of the key; `Poll` holds it too. */
  datatype Step =
    | Offer(key: Key, event: WatchEvent)
    | Check(key: Key)
    | Enqueue(key: Key)
    | Take(key: Key)
    | Poll(key: Key, result: seq<WatchEvent>)

  ghost predicate Next(s: State, step: Step, s': State) {
    && step.key in s.keys
    && var k, key := step.key, s.keys[step.key];
       match step
       case Offer(_, event) =>
         key.phase == Unlocked && event.FileEvent? && s' == s.(keys := s.keys[k := OfferTo(key, event)])
       case Check(_) =>
         && key.phase == Offered
         && s' == s.(keys := s.keys[k := key.(phase := if k in s.ready then Unlocked else NotFound)])
       case Enqueue(_) =>
         key.phase == NotFound && s' == s.(keys := s.keys[k := key.(phase := Unlocked)], ready := s.ready + [k])
       case Take(_) =>
         s.ready != [] && s.ready[0] == k && s' == s.(ready := s.ready[1..], taken := s.taken + {k})
       case Poll(_, result) =>
         && key.phase == Unlocked && result == Polled(key)
         && s' == s.(keys := s.keys[k := Drained(key)], taken := s.taken - {k})
  }

  ghost predicate Init(s: State) {
    && s.ready == [] && s.taken == {}
    && forall k <- s.keys :: s.keys[k].capacity >= 1 && s.keys[k] == KeyState(s.keys[k].capacity, [], 0, Unlocked)
  }

  ghost predicate IsRun(states: seq<State>, steps: seq<Step>) {
    && |states| == |steps| + 1 && Init(states[0])
    && forall i | 0 <= i < |steps| :: Next(states[i], steps[i], states[i + 1])
  }

  // ----- safety

  predicate Waiting(key: KeyState) {
    key.events != [] || key.overflow != 0
  }

  ghost predicate KeyOk(s: State, k: Key)
    requires k in s.keys
  {
    var key := s.keys[k];
    && 1 <= key.capacity && |key.events| <= key.capacity
    && (key.overflow != 0 ==> key.events != [])
    && (key.phase == Offered ==> key.events != [])
    && (key.phase == NotFound ==> k !in s.ready)
    && (Waiting(key) ==> k in s.ready || k in s.taken || key.phase != Unlocked)
    && (forall event <- key.events :: event.FileEvent?)
  }

  predicate NoDuplicates(ready: seq<Key>) {
    forall i, j | 0 <= i < j < |ready| :: ready[i] != ready[j]
  }

  ghost predicate Safe(s: State) {
    && NoDuplicates(s.ready) && (forall k <- s.ready :: k in s.keys)
    && forall k <- s.keys :: KeyOk(s, k)
  }

  lemma StepSafe(s: State, step: Step, s': State)
    requires Safe(s) && Next(s, step, s')
    ensures Safe(s')
  {
    var k := step.key;
    assert KeyOk(s, k);
    if step.Take? {
      assert s.ready == [k] + s'.ready;
      assert forall other <- s'.ready :: other != k && other in s.ready;
    }
    forall other | other in s'.keys
      ensures KeyOk(s', other)
    {
      assert KeyOk(s, other);
      if step.Take? && other in s.ready && other != k {
        assert other in s'.ready;
      }
    }
  }

  /** No wake-up is lost: over any interleaving, a key with queued events or a non-zero overflow count
      is among the ready keys, or was taken and has not been polled since, or is inside an unfinished
      `addEvent`. It is ready at most once, its queue is within its capacity, and a non-zero overflow
      count means that the queue is not empty. */
  lemma {:induction false} NoLostWakeUp(states: seq<State>, steps: seq<Step>, i: nat)
    requires IsRun(states, steps) && i <= |steps|
    ensures NoDuplicates(states[i].ready)
    ensures forall k <- states[i].keys ::
              var key := states[i].keys[k];
              && |key.events| <= key.capacity && (key.overflow != 0 ==> key.events != [])
              && (Waiting(key) ==> k in states[i].ready || k in states[i].taken || key.phase != Unlocked)
    ensures Safe(states[i])
    decreases i
  {
    if i > 0 {
      NoLostWakeUp(states, steps, i - 1);
      assert Next(states[i - 1], steps[i - 1], states[i - 1 + 1]);
      StepSafe(states[i - 1], steps[i - 1], states[i]);
    }
    forall k | k in states[i].keys
      ensures KeyOk(states[i], k)
    {
    }
  }

  // ----- conservation

  /** What happened to the events offered to `k` in the first `n` steps: `accepted` or not. */
  ghost function OfferedTo(states: seq<State>, steps: seq<Step>, k: Key, accepted: bool, n: nat): seq<WatchEvent>
    requires IsRun(states, steps) && n <= |steps|
  {
    if n == 0 then []
    else
      OfferedTo(states, steps, k, accepted, n - 1)
      + if steps[n - 1].Offer? && steps[n - 1].key == k && HasRoom(states, steps, n - 1) == accepted
        then [steps[n - 1].event] else []
  }

  ghost predicate HasRoom(states: seq<State>, steps: seq<Step>, i: nat)
    requires IsRun(states, steps) && i < |steps|
  {
    assert Next(states[i], steps[i], states[i + 1]);
    |states[i].keys[steps[i].key].events| < states[i].keys[steps[i].key].capacity
  }

  /** The file events among the results of polling `k`, in order. */
  function Returned(steps: seq<Step>, k: Key, n: nat): seq<WatchEvent>
    requires n <= |steps|
  {
    if n == 0 then []
    else
      Returned(steps, k, n - 1)
      + if steps[n - 1].Poll? && steps[n - 1].key == k then FileEvents(steps[n - 1].result) else []
  }

  function FileEvents(result: seq<WatchEvent>): seq<WatchEvent> {
    if result != [] && result[|result| - 1].Overflow? then result[..|result| - 1] else result
  }

  /** The OVERFLOW counts among them, added up. */
  function Counted(steps: seq<Step>, k: Key, n: nat): int
    requires n <= |steps|
  {
    if n == 0 then 0
    else
      Counted(steps, k, n - 1)
      + if steps[n - 1].Poll? && steps[n - 1].key == k then OverflowCount(steps[n - 1].result) else 0
  }

  function OverflowCount(result: seq<WatchEvent>): int {
    if result != [] && result[|result| - 1].Overflow? then result[|result| - 1].count else 0
  }

  lemma PolledParts(key: KeyState)
    requires forall event <- key.events :: event.FileEvent?
    ensures FileEvents(Polled(key)) == key.events && OverflowCount(Polled(key)) == key.overflow
  {
    if key.overflow != 0 {
      assert Polled(key)[..|Polled(key)| - 1] == key.events;
    } else {
      assert Polled(key) == key.events;
      assert key.events != [] ==> key.events[|key.events| - 1] in key.events;
    }
  }

  /** What one step adds to the events of `k`, and to the counts. */
  lemma OneStep(states: seq<State>, steps: seq<Step>, k: Key, n: nat)
    requires IsRun(states, steps) && n < |steps| && k in states[n].keys
    ensures k in states[n + 1].keys
    ensures var key, key', step := states[n].keys[k], states[n + 1].keys[k], steps[n];
            if step.key == k && step.Offer? then
              if |key.events| < key.capacity then
                && OfferedTo(states, steps, k, true, n + 1) == OfferedTo(states, steps, k, true, n) + [step.event]
                && OfferedTo(states, steps, k, false, n + 1) == OfferedTo(states, steps, k, false, n)
                && key'.events == key.events + [step.event] && key'.overflow == key.overflow
                && Returned(steps, k, n + 1) == Returned(steps, k, n)
                && Counted(steps, k, n + 1) == Counted(steps, k, n)
              else
                && OfferedTo(states, steps, k, true, n + 1) == OfferedTo(states, steps, k, true, n)
                && OfferedTo(states, steps, k, false, n + 1) == OfferedTo(states, steps, k, false, n) + [step.event]
                && key'.events == key.events && key'.overflow == Wrap(key.overflow + 1)
                && Returned(steps, k, n + 1) == Returned(steps, k, n)
                && Counted(steps, k, n + 1) == Counted(steps, k, n)
            else
              && OfferedTo(states, steps, k, true, n + 1) == OfferedTo(states, steps, k, true, n)
              && OfferedTo(states, steps, k, false, n + 1) == OfferedTo(states, steps, k, false, n)
              && Returned(steps, k, n + 1) + key'.events == Returned(steps, k, n) + key.events
              && (if step.key == k && step.Poll? then
                    key'.overflow == 0 && Counted(steps, k, n + 1) == Counted(steps, k, n) + key.overflow
                  else key'.overflow == key.overflow && Counted(steps, k, n + 1) == Counted(steps, k, n))
  {
    assert Next(states[n], steps[n], states[n + 1]);
    NoLostWakeUp(states, steps, n);
    assert KeyOk(states[n], k);
    PolledParts(states[n].keys[k]);
  }

  /** Every event that the queue accepted is returned exactly once and in order, or still queued. */
  lemma {:induction false} EventsReturned(states: seq<State>, steps: seq<Step>, k: Key, n: nat)
    requires IsRun(states, steps) && n <= |steps| && k in states[0].keys
    ensures k in states[n].keys
    ensures OfferedTo(states, steps, k, true, n) == Returned(steps, k, n) + states[n].keys[k].events
    decreases n
  {
    if n > 0 {
      EventsReturned(states, steps, k, n - 1);
      OneStep(states, steps, k, n - 1);
    }
  }

  /** The events lost so far, the OVERFLOW counts returned so far, and the count still to be returned. */
  datatype Ledger = Ledger(lost: nat, counted: int, overflow: int)

  ghost function LedgerOf(states: seq<State>, steps: seq<Step>, k: Key, n: nat): Ledger
    requires IsRun(states, steps) && n <= |steps| && k in states[n].keys
  {
    Ledger(|OfferedTo(states, steps, k, false, n)|, Counted(steps, k, n), states[n].keys[k].overflow)
  }

  /** Losing an event adds one to the overflow, as an int; polling returns it; nothing else touches it. */
  predicate LedgerStep(a: Ledger, b: Ledger) {
    || b == Ledger(a.lost + 1, a.counted, Wrap(a.overflow + 1))
    || b == Ledger(a.lost, a.counted + a.overflow, 0)
    || b == a
  }

  lemma StepsLedger(states: seq<State>, steps: seq<Step>, k: Key, n: nat)
    requires IsRun(states, steps) && n < |steps| && k in states[n].keys
    ensures k in states[n + 1].keys
    ensures LedgerStep(LedgerOf(states, steps, k, n), LedgerOf(states, steps, k, n + 1))
  {
    OneStep(states, steps, k, n);
  }

  /** Every event lost is counted once, as an int, which may wrap around; and as long as fewer than
      2^31 events were lost, exactly. */
  predicate Balanced(ledger: Ledger) {
    && Wrap(ledger.lost - ledger.counted - ledger.overflow) == 0
    && (ledger.lost <= MAX_INT ==>
          ledger.counted >= 0 && ledger.overflow >= 0 && ledger.lost == ledger.counted + ledger.overflow)
  }

  lemma StaysBalanced(a: Ledger, b: Ledger)
    requires Balanced(a) && LedgerStep(a, b)
    ensures Balanced(b)
  {
  }

  /** Every event that the queue had no room for is counted in exactly one OVERFLOW count: one that
      has been returned, or the one still to be. */
  lemma {:induction false} EventsCounted(states: seq<State>, steps: seq<Step>, k: Key, n: nat)
    requires IsRun(states, steps) && n <= |steps| && k in states[0].keys
    ensures k in states[n].keys
    ensures Balanced(LedgerOf(states, steps, k, n))
    decreases n
  {
    if n > 0 {
      EventsCounted(states, steps, k, n - 1);
      StepsLedger(states, steps, k, n - 1);
      StaysBalanced(LedgerOf(states, steps, k, n - 1), LedgerOf(states, steps, k, n));
    }
  }

  // ----- the objects

  /** The ready queue that all keys share. */
  class ReadyKeys {
    var queue: seq<MacOSXWatchKey>

    constructor ()
      ensures queue == []
    {
      queue := [];
    }

    /** `poll`, or null when nothing is ready. */
    method Poll() returns (key: MacOSXWatchKey?)
      modifies this
      ensures if old(queue) == [] then key == null && queue == []
              else key == old(queue)[0] && queue == old(queue)[1..]
    {
      if queue == [] {
        return null;
      }
      key := queue[0];
      queue := queue[1..];
    }
  }

  class MacOSXWatchKey {
    const queueSize: nat
    const readyKeys: ReadyKeys
    var events: seq<WatchEvent>
    var overflow: int

    constructor (queueSize: nat, readyKeys: ReadyKeys)
      requires queueSize >= 1
      ensures this.queueSize == queueSize && this.readyKeys == readyKeys
      ensures Value() == KeyState(queueSize, [], 0, Unlocked)
    {
      this.queueSize := queueSize;
      this.readyKeys := readyKeys;
      events, overflow := [], 0;
    }

    /** The state of the key when no thread is inside `addEvent`. */
    ghost function Value(): KeyState
      reads this
    {
      KeyState(queueSize, events, overflow, Unlocked)
    }

    /** `addEvent` that no other thread interrupts. */
    method AddEvent(event: WatchEvent)
      modifies this`events, this`overflow, readyKeys
      ensures Value() == OfferTo(old(Value()), event).(phase := Unlocked)
      ensures readyKeys.queue == if |old(events)| < queueSize && this !in old(readyKeys.queue)
                                 then old(readyKeys.queue) + [this] else old(readyKeys.queue)
    {
      if |events| < queueSize {
        events := events + [event];
        if this !in readyKeys.queue {
          readyKeys.queue := readyKeys.queue + [this];
        }
      } else {
        overflow := Wrap(overflow + 1);
      }
    }

    method PollEvents() returns (result: seq<WatchEvent>)
      modifies this`events, this`overflow
      ensures result == Polled(old(Value())) && Value() == Drained(old(Value()))
    {
      var overflowCount := overflow;
      overflow := 0;
      result := events;
      events := [];
      if overflowCount != 0 {
        result := result + [Overflow(overflowCount)];
      }
    }
  }

  /** The steps of `addEvent`, taken without interruption, do what the method does. */
  lemma AddEventAlone(s: State, k: Key, event: WatchEvent, s1: State, s2: State, s3: State)
    requires Safe(s) && Next(s, Offer(k, event), s1) && |s.keys[k].events| < s.keys[k].capacity
    requires Next(s1, Check(k), s2) && (if s2.keys[k].phase == NotFound then Next(s2, Enqueue(k), s3) else s3 == s2)
    ensures s3 == s.(keys := s.keys[k := OfferTo(s.keys[k], event).(phase := Unlocked)],
                     ready := if k in s.ready then s.ready else s.ready + [k])
  {
    var done := s.keys[k := OfferTo(s.keys[k], event).(phase := Unlocked)];
    assert s1.keys == s.keys[k := OfferTo(s.keys[k], event)];
    assert s3.keys == done;
  }
}
