/** The difference of two maps of entries, as the calls made on an observer. */
module MapOps {
  import opened Entries
  import opened CacheTree
  import opened Replays

  /** The last entry of a list with this path. */
  ghost predicate LastWithPath(entries: seq<Entry>, q: Path, e: Entry) {
    exists i :: 0 <= i < |entries| && entries[i] == e && PathOf(e) == q
                && forall j | i < j < |entries| :: PathOf(entries[j]) != q
  }

  lemma LastAppended(entries: seq<Entry>, e: Entry, q: Path, last: Entry)
    requires if q == PathOf(e) then last == e else LastWithPath(entries, q, last)
    ensures LastWithPath(entries + [e], q, last)
  {
    var more := entries + [e];
    if q == PathOf(e) {
      assert more[|entries|] == last;
    } else {
      var i :| 0 <= i < |entries| && entries[i] == last && PathOf(last) == q
               && forall j | i < j < |entries| :: PathOf(entries[j]) != q;
      assert more[i] == last && forall j | i < j < |more| :: PathOf(more[j]) != q;
    }
  }

  /** The map a list of entries is put into, one entry after the other: the last one with a path stays. */
  method FromList(entries: seq<Entry>) returns (m: map<Path, Entry>)
    ensures m.Keys == set e | e in entries :: PathOf(e)
    ensures forall q <- m :: LastWithPath(entries, q, m[q])
    ensures forall q <- m :: m[q] in entries && PathOf(m[q]) == q
  {
    m := map[];
    for i := 0 to |entries|
      invariant m.Keys == set e | e in entries[..i] :: PathOf(e)
      invariant forall q <- m :: LastWithPath(entries[..i], q, m[q])
    {
      var e := entries[i];
      assert entries[..i + 1] == entries[..i] + [e];
      forall q | q == PathOf(e) || q in m
        ensures LastWithPath(entries[..i + 1], q, if q == PathOf(e) then e else m[q])
      {
        LastAppended(entries[..i], e, q, if q == PathOf(e) then e else m[q]);
      }
      m := m[PathOf(e) := e];
    }
    assert entries[..|entries|] == entries;
  }

  /** The one call made for a key of either map. */
  function EventFor(before: map<Path, Entry>, after: map<Path, Entry>, key: Path): Event
    requires key in before || key in after
  {
    if key !in after then Delete(before[key])
    else if key in before then Modify(before[key], after[key])
    else Create(after[key])
  }

  /** The calls are made one for each key, and no key twice. */
  ghost predicate OnePerKey(before: map<Path, Entry>, after: map<Path, Entry>, events: seq<Event>, keys: seq<Path>) {
    && |events| == |keys|
    && (forall i, j | 0 <= i < j < |keys| :: keys[i] != keys[j])
    && (forall i | 0 <= i < |keys| ::
          (keys[i] in before || keys[i] in after) && events[i] == EventFor(before, after, keys[i]))
  }

  /** `diffDirectoryEntries`: exactly one call for each key of the union, deletions last. */
  method DiffDirectoryEntries(before: map<Path, Entry>, after: map<Path, Entry>)
    returns (events: seq<Event>, ghost keys: seq<Path>)
    ensures OnePerKey(before, after, events, keys)
    ensures forall key :: key in keys <==> key in before || key in after
    ensures forall event :: event in events <==> Has(Diff(before, after), event)
  {
    events, keys := [], [];
    var todo := after.Keys;
    while todo != {}
      invariant todo <= after.Keys && OnePerKey(before, after, events, keys)
      invariant forall key :: key in keys <==> key in after && key !in todo
      decreases todo
    {
      var key :| key in todo;
      todo := todo - {key};
      if key in before {
        events := events + [Modify(before[key], after[key])];
      } else {
        events := events + [Create(after[key])];
      }
      keys := keys + [key];
    }
    todo := before.Keys;
    while todo != {}
      invariant todo <= before.Keys && OnePerKey(before, after, events, keys)
      invariant forall key :: key in keys <==> key in after || (key in before && key !in todo)
      decreases todo
    {
      var key :| key in todo;
      todo := todo - {key};
      if key !in after {
        events := events + [Delete(before[key])];
        keys := keys + [key];
      }
    }
    OneEventPerKey(before, after, events, keys);
  }

  /** One call per key of the union is what the difference consists of. */
  lemma OneEventPerKey(before: map<Path, Entry>, after: map<Path, Entry>, events: seq<Event>, keys: seq<Path>)
    requires OnePerKey(before, after, events, keys)
    requires forall key :: key in keys <==> key in before || key in after
    ensures forall event :: event in events <==> Has(Diff(before, after), event)
  {
    forall event
      ensures event in events <==> Has(Diff(before, after), event)
    {
      if Has(Diff(before, after), event) {
        var key := KeyFor(before, after, event);
        var i :| 0 <= i < |keys| && keys[i] == key;
        assert events[i] == event;
      }
      if event in events {
        var i :| 0 <= i < |events| && events[i] == event;
        assert EventFor(before, after, keys[i]) == event;
      }
    }
  }

  lemma KeyFor(before: map<Path, Entry>, after: map<Path, Entry>, event: Event) returns (key: Path)
    requires Has(Diff(before, after), event)
    ensures (key in before || key in after) && EventFor(before, after, key) == event
  {
    match event {
      case Create(e) => key :| key in after && key !in before && after[key] == e;
      case Modify(e1, e2) => key :| key in after && key in before && (before[key], after[key]) == (e1, e2);
      case Delete(e) => key :| key in before && key !in after && before[key] == e;
    }
  }
}
