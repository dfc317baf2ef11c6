/** The record of one update, and its replay to an observer. */
module FileTreeViews {
  import opened Entries
  import opened CacheTree
  import opened Replays

  class Updates {
    var creations: seq<Entry>
    var deletions: seq<Entry>
    var updates: seq<(Entry, Entry)>

    constructor ()
      ensures Recorded() == NOTHING
    {
      creations, deletions, updates := [], [], [];
    }

    /** What has been recorded so far. */
    ghost function Recorded(): Changes
      reads this
    {
      Changes(set e | e in creations, set u | u in updates, set e | e in deletions)
    }

    method OnCreate(e: Entry)
      modifies this`creations
      ensures creations == old(creations) + [e]
      ensures Recorded() == old(Recorded()).(creations := old(Recorded()).creations + {e})
    {
      creations := creations + [e];
    }

    method OnUpdate(before: Entry, after: Entry)
      modifies this`updates
      ensures updates == old(updates) + [(before, after)]
      ensures Recorded() == old(Recorded()).(updates := old(Recorded()).updates + {(before, after)})
    {
      updates := updates + [(before, after)];
    }

    method OnDelete(e: Entry)
      modifies this`deletions
      ensures deletions == old(deletions) + [e]
      ensures Recorded() == old(Recorded()).(deletions := old(Recorded()).deletions + {e})
    {
      deletions := deletions + [e];
    }

    /** The calls of a difference, made on this record. */
    method OnEvents(events: seq<Event>)
      modifies this
      ensures forall event :: Has(Recorded(), event) <==> old(Has(Recorded(), event)) || event in events
    {
      for i := 0 to |events|
        invariant forall event :: Has(Recorded(), event) <==> old(Has(Recorded(), event)) || event in events[..i]
      {
        assert events[..i + 1] == events[..i] + [events[i]];
        match events[i] {
          case Create(e) => OnCreate(e);
          case Modify(before, after) => OnUpdate(before, after);
          case Delete(e) => OnDelete(e);
        }
      }
      assert events[..|events|] == events;
    }

    /** `observe`: all creations, then all updates, then all deletions, each in the order recorded. */
    method Observe() returns (events: seq<Event>)
      ensures Records(events, Recorded())
      ensures |events| == |creations| + |updates| + |deletions|
      ensures forall i | 0 <= i < |creations| :: events[i] == Create(creations[i])
      ensures forall i | 0 <= i < |updates| :: events[|creations| + i] == Modify(updates[i].0, updates[i].1)
      ensures forall i | 0 <= i < |deletions| ::
                events[|creations| + |updates| + i] == Delete(SetExists(deletions[i], false))
    {
      events := [];
      for i := 0 to |creations|
        invariant |events| == i && forall j | 0 <= j < i :: events[j] == Create(creations[j])
      {
        events := events + [Create(creations[i])];
      }
      ghost var created := events;
      for i := 0 to |updates|
        invariant |events| == |created| + i && events[..|created|] == created
        invariant forall j | 0 <= j < i :: events[|created| + j] == Modify(updates[j].0, updates[j].1)
      {
        events := events + [Modify(updates[i].0, updates[i].1)];
      }
      ghost var both := events;
      for i := 0 to |deletions|
        invariant |events| == |both| + i && events[..|both|] == both
        invariant forall j | 0 <= j < i :: events[|both| + j] == Delete(SetExists(deletions[j], false))
      {
        events := events + [Delete(SetExists(deletions[i], false))];
      }
      assert forall i | 0 <= i < |both| :: events[i] == events[..|both|][i];
      assert forall i | 0 <= i < |created| :: both[i] == both[..|created|][i];
      RecordsObserved(creations, updates, deletions, events);
    }
  }

  lemma RecordsObserved(creations: seq<Entry>, updates: seq<(Entry, Entry)>, deletions: seq<Entry>, events: seq<Event>)
    requires |events| == |creations| + |updates| + |deletions|
    requires forall i | 0 <= i < |creations| :: events[i] == Create(creations[i])
    requires forall i | 0 <= i < |updates| :: events[|creations| + i] == Modify(updates[i].0, updates[i].1)
    requires forall i | 0 <= i < |deletions| ::
               events[|creations| + |updates| + i] == Delete(SetExists(deletions[i], false))
    ensures Records(events, Changes(set e | e in creations, set u | u in updates, set e | e in deletions))
  {
    var u := Changes(set e | e in creations, set p | p in updates, set e | e in deletions);
    forall event | event in events
      ensures Has(Observed(u), event)
    {
      var i :| 0 <= i < |events| && events[i] == event;
      if i < |creations| {
        assert creations[i] in u.creations;
      } else if i < |creations| + |updates| {
        var k := i - |creations|;
        assert events[|creations| + k] == event && updates[k] in u.updates;
      } else {
        var k := i - |creations| - |updates|;
        assert events[|creations| + |updates| + k] == event && deletions[k] in u.deletions;
      }
    }
    forall event | Has(Observed(u), event)
      ensures event in events
    {
      match event {
        case Create(e) =>
          var i :| 0 <= i < |creations| && creations[i] == e;
          assert events[i] == event;
        case Modify(before, after) =>
          var i :| 0 <= i < |updates| && updates[i] == (before, after);
          assert events[|creations| + i] == event;
        case Delete(e) =>
          var d :| d in u.deletions && e == SetExists(d, false);
          var i :| 0 <= i < |deletions| && deletions[i] == d;
          assert events[|creations| + |updates| + i] == event;
      }
    }
  }
}
