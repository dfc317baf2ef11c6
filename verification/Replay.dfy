/** Replaying recorded events on a map from path to entry. */
module Replays {
  import opened Wrappers
  import opened Entries
  import opened CacheTree

  datatype Event = Create(entry: Entry) | Modify(before: Entry, after: Entry) | Delete(entry: Entry)

  /** An observer that mirrors the cache. */
  function Apply(m: map<Path, Entry>, event: Event): map<Path, Entry> {
    match event
    case Create(e) => m[PathOf(e) := e]
    case Modify(_, e) => m[PathOf(e) := e]
    case Delete(e) => m - {PathOf(e)}
  }

  function Replay(m: map<Path, Entry>, events: seq<Event>): map<Path, Entry>
    decreases |events|
  {
    if events == [] then m else Replay(Apply(m, events[0]), events[1..])
  }

  /** `Updates.observe` marks deleted entries as not existing. */
  function Observed(u: Changes): Changes {
    u.(deletions := set e | e in u.deletions :: SetExists(e, false))
  }

  /** The events are those that `u` sends an observer, in any order and any number of times. */
  ghost predicate Records(events: seq<Event>, u: Changes) {
    forall event :: event in events <==> Has(Observed(u), event)
  }

  function Lookup(m: map<Path, Entry>, q: Path): Option<Entry> {
    if q in m then Some(m[q]) else None
  }

  /** One event tells the truth about the change of its path. */
  predicate Truthful(event: Event, q: Path, before: Option<Entry>, after: Option<Entry>) {
    match event
    case Create(e) => PathOf(e) == q ==> before.None? && after == Some(e)
    case Modify(e1, e2) => PathOf(e1) == q || PathOf(e2) == q ==> before == Some(e1) && after == Some(e2)
    case Delete(e) =>
      PathOf(e) == q ==> before.Some? && SetExists(e, false) == SetExists(before.value, false) && after.None?
  }

  predicate Concerns(event: Event, q: Path) {
    match event
    case Create(e) => PathOf(e) == q
    case Modify(_, e) => PathOf(e) == q
    case Delete(e) => PathOf(e) == q
  }

  predicate Has(u: Changes, event: Event) {
    match event
    case Create(e) => e in u.creations
    case Modify(e1, e2) => (e1, e2) in u.updates
    case Delete(e) => e in u.deletions
  }

  /** The events of `u` explain how the entry at `q` changed. */
  ghost predicate ExplainedAt(u: Changes, q: Path, before: Option<Entry>, after: Option<Entry>) {
    && (forall event | Has(u, event) :: Truthful(event, q, before, after))
    && (before != after ==> exists event :: Has(u, event) && Concerns(event, q))
  }

  lemma ObservedExplains(u: Changes, q: Path, before: Option<Entry>, after: Option<Entry>)
    requires ExplainedAt(u, q, before, after)
    ensures ExplainedAt(Observed(u), q, before, after)
  {
    forall event | Has(Observed(u), event)
      ensures Truthful(event, q, before, after)
    {
      if event.Delete? {
        var e :| e in u.deletions && event.entry == SetExists(e, false);
        assert Has(u, Delete(e));
      } else {
        assert Has(u, event);
      }
    }
    if before != after {
      var event :| Has(u, event) && Concerns(event, q);
      assert Has(Observed(u), if event.Delete? then Delete(SetExists(event.entry, false)) else event);
    }
  }

  /** Truthful events that concern every changed path lead from the old map to the new one,
      whatever their order. */
  lemma {:induction false} ReplayExplained(m: map<Path, Entry>, start: map<Path, Entry>, end: map<Path, Entry>,
                                           events: seq<Event>)
    requires forall q, event | event in events :: Truthful(event, q, Lookup(start, q), Lookup(end, q))
    requires forall q :: Lookup(m, q) == Lookup(start, q) || Lookup(m, q) == Lookup(end, q)
    requires forall q | Lookup(m, q) != Lookup(end, q) :: exists event :: event in events && Concerns(event, q)
    ensures Replay(m, events) == end
    decreases |events|
  {
    if events == [] {
      forall q
        ensures Lookup(m, q) == Lookup(end, q)
      {
      }
      assert forall q :: q in m <==> Lookup(m, q).Some?;
      assert forall q :: q in end <==> Lookup(end, q).Some?;
      assert m == end;
    } else {
      var event, rest := events[0], events[1..];
      assert event in events;
      var m' := Apply(m, event);
      forall q
        ensures Lookup(m', q) == if Concerns(event, q) then Lookup(end, q) else Lookup(m, q)
      {
        assert Truthful(event, q, Lookup(start, q), Lookup(end, q));
      }
      forall q | Lookup(m', q) != Lookup(end, q)
        ensures exists event' :: event' in rest && Concerns(event', q)
      {
        var event' :| event' in events && Concerns(event', q);
        assert event' != event;
        assert event' in rest;
      }
      assert forall event' | event' in rest :: event' in events;
      ReplayExplained(m', start, end, rest);
    }
  }

  /** Every entry of a replayed map stays under its own path. */
  lemma {:induction false} ReplayKeyed(m: map<Path, Entry>, events: seq<Event>)
    requires forall q <- m :: PathOf(m[q]) == q
    ensures forall q <- Replay(m, events) :: PathOf(Replay(m, events)[q]) == q
    decreases |events|
  {
    if events != [] {
      ReplayKeyed(Apply(m, events[0]), events[1..]);
    }
  }

  /** A path that no creation or update mentions is not gained. */
  lemma {:induction false} ReplayGainsNothing(m: map<Path, Entry>, events: seq<Event>, q: Path)
    requires forall event <- events :: Concerns(event, q) ==> event.Delete?
    requires q !in m || exists event :: event in events && Concerns(event, q)
    ensures q !in Replay(m, events)
    decreases |events|
  {
    if events != [] {
      assert events[0] in events;
      var m' := Apply(m, events[0]);
      if q in m' {
        var event :| event in events && Concerns(event, q);
        assert event in events[1..];
      }
      ReplayGainsNothing(m', events[1..], q);
    }
  }
}
