/** The polling watcher: it compares what is registered with what it found the last time. Polls and
    registrations are atomic here. */
module PollingPathWatchers {
  import opened Wrappers
  import opened Entries
  import opened Snapshots
  import opened CacheTree
  import opened Replays
  import opened MapOps
  import opened DirectoryRegistries
  import opened FileCacheTree
  import opened FileCacheListing
  import opened CachedDirectories
  import CacheRuns
  import CacheDeliveries

  datatype PathEventKind = CreateKind | DeleteKind | ModifyKind

  datatype PathEvent = PathEvent(tp: TypedPath, kind: PathEventKind)

  // ----- one registered path

  /** `getEntries` of one registered path. */
  function EntriesAt(fs: Snapshot, path: Path, maxDepth: int): set<Entry> {
    match NewCachedDirectoryView(fs, path, maxDepth)
    case Created(dir) => OwnListed(dir, maxDepth) + OwnListed(dir, -1)
    case NotCreated(error) =>
      if error == NotDirectory then {Entry(Stat(fs, path), fs.convert(path))} else {}
  }

  /** `FileTreeDataViews.cached`. */
  function NewCachedDirectoryView(fs: Snapshot, path: Path, maxDepth: int): NewDirectory {
    var listing := ListDirectory(fs, path);
    if maxDepth >= 0 && listing.Failed? then NotCreated(listing.error)
    else Created(ScanOf(fs, path, maxDepth, AllPass))
  }

  function OwnListed(dir: Cached, maxDepth: int): set<Entry> {
    FileCacheTree.OwnListing(dir, maxDepth)
  }

  /** A path that is found on account of a registered one: it exists within the registered depth. A
      registered directory that cannot be read is not found itself. */
  predicate Visible(fs: Snapshot, dir: Path, depth: int, path: Path) {
    && AcceptedBy(dir, depth, path) && NodeAt(fs.root, path).Some?
    && (path == dir && depth >= 0 ==> ListDirectory(fs, dir) != Failed(AccessDenied))
  }

  lemma LookAnywhere(c: Cached, key: Path, fs: Snapshot, q: Path)
    requires Mirrors(c, key, fs) && c.depth >= 0
    ensures Look(c, q) == if NodeAt(fs.root, q).Some? && AcceptedBy(key, c.depth, q) then Some(Exactly(fs, q)) else None
  {
    if key <= q {
      var node, rel := NodeAt(fs.root, key).value, q[|key|..];
      assert key + rel == q;
      NodeAtSplit(fs.root, key, rel);
      NodeWithin(fs, q);
      if rel != [] {
        assert CacheDeliveries.Right(c, node, key, fs.convert, rel);
      } else {
        assert q == key;
      }
    }
  }

  /** What is found for one registered path: what exists, as a directory lister reports it, and the path itself as
      its own attributes say. */
  lemma EntriesVisible(fs: Snapshot, path: Path, maxDepth: int, e: Entry)
    requires WellFormed(fs.root, []) && |path| <= MAX_INT && maxDepth <= MAX_INT
    ensures e in EntriesAt(fs, path, maxDepth) ==>
              && e.tp.path.Abs? && Visible(fs, path, maxDepth, PathOf(e)) && e.value == fs.convert(PathOf(e))
              && e == if PathOf(e) == path then Entry(Stat(fs, path), fs.convert(path)) else Exactly(fs, PathOf(e))
  {
    if e in EntriesAt(fs, path, maxDepth) && maxDepth >= 0 && ListDirectory(fs, path).Children? {
      var c := ScanOf(fs, path, maxDepth, AllPass);
      ScanMirrors(fs, path, maxDepth, AllPass);
      CacheListing.OwnDepthListing(c, e);
      LookAnywhere(c, path, fs, PathOf(e));
    }
  }

  lemma VisibleEntry(fs: Snapshot, path: Path, maxDepth: int, q: Path) returns (e: Entry)
    requires WellFormed(fs.root, []) && |path| <= MAX_INT && maxDepth <= MAX_INT && Visible(fs, path, maxDepth, q)
    ensures e in EntriesAt(fs, path, maxDepth) && PathOf(e) == q
  {
    if q == path {
      e := Entry(Stat(fs, path), fs.convert(path));
      OwnEntryFound(fs, path, maxDepth);
    } else {
      e := Exactly(fs, q);
      EntryBelowFound(fs, path, maxDepth, q);
    }
  }

  lemma OwnEntryFound(fs: Snapshot, path: Path, maxDepth: int)
    requires Visible(fs, path, maxDepth, path)
    ensures Entry(Stat(fs, path), fs.convert(path)) in EntriesAt(fs, path, maxDepth)
  {
  }

  lemma EntryBelowFound(fs: Snapshot, path: Path, maxDepth: int, q: Path)
    requires WellFormed(fs.root, []) && |path| <= MAX_INT && maxDepth <= MAX_INT
    requires Visible(fs, path, maxDepth, q) && path != q
    ensures Exactly(fs, q) in EntriesAt(fs, path, maxDepth)
  {
    var c := ScanOf(fs, path, maxDepth, AllPass);
    FolderAbove(fs, path, q);
    ScanMirrors(fs, path, maxDepth, AllPass);
    LookAnywhere(c, path, fs, q);
    CacheListing.OwnDepthListing(c, Exactly(fs, q));
  }

  /** What lies below a path lies in a directory that can be read. */
  lemma FolderAbove(fs: Snapshot, path: Path, q: Path)
    requires WellFormed(fs.root, []) && path < q && NodeAt(fs.root, q).Some?
    ensures ListDirectory(fs, path).Children?
  {
    var rel := q[|path|..];
    assert path + rel == q;
    SplitAbove(fs.root, path, rel);
    WellFormedAt(fs.root, [], path);
  }

  lemma {:induction false} SplitAbove(node: Node, a: Path, b: Path)
    requires NodeAt(node, a + b).Some? && b != []
    ensures NodeAt(node, a).Some? && NodeAt(node, a).value.Folder? && b[0] in NodeAt(node, a).value.children
    decreases |a|
  {
    if a == [] {
      assert a + b == b;
    } else {
      assert (a + b)[1..] == a[1..] + b && (a + b)[0] == a[0];
      SplitAbove(node.children[a[0]], a[1..], b);
    }
  }

  // ----- all registered paths

  /** `getEntries`: for each path found, an entry with the value of that path. */
  ghost predicate IsPoll(fs: Snapshot, reg: Registered, found: map<Path, Entry>) {
    && (forall q :: q in found <==> exists dir :: dir in reg && Visible(fs, dir, reg[dir], q))
    && (forall q <- found :: found[q].tp.path == Abs(q) && found[q].value == fs.convert(q))
  }

  /** A poll finds exactly what exists and the registry accepts, when all registered directories can
      be read. */
  lemma PollFindsAccepted(fs: Snapshot, reg: Registered, found: map<Path, Entry>, q: Path)
    requires IsPoll(fs, reg, found) && forall dir <- reg :: ListDirectory(fs, dir) != Failed(AccessDenied)
    ensures q in found <==> NodeAt(fs.root, q).Some? && Accepts(reg, q)
  {
  }

  // ----- the events of a poll

  /** The observer ignores an update that leaves the value as it was. */
  predicate Emitted(event: Event) {
    event.Modify? ==> event.before.value != event.after.value
  }

  /** The calls of a difference that lead to events. */
  ghost predicate Emits(before: map<Path, Entry>, after: map<Path, Entry>, events: seq<Event>) {
    forall event :: event in events <==> Has(Diff(before, after), event) && Emitted(event)
  }

  function Observe(event: Event): PathEvent {
    match event
    case Create(e) => PathEvent(e.tp, CreateKind)
    case Modify(_, e) => PathEvent(e.tp, ModifyKind)
    case Delete(e) => PathEvent(e.tp, DeleteKind)
  }

  predicate Keyed(m: map<Path, Entry>) {
    forall q <- m :: PathOf(m[q]) == q
  }

  /** The same paths with the same values: the equality of entries. */
  predicate SameEntries(a: map<Path, Entry>, b: map<Path, Entry>) {
    a.Keys == b.Keys && forall q <- a :: a[q].value == b[q].value
  }

  predicate SameAt(a: map<Path, Entry>, b: map<Path, Entry>, q: Path) {
    (q in a <==> q in b) && (q in a ==> a[q].value == b[q].value)
  }

  /** The event leads to what `after` has at its path. */
  predicate LeadsTo(event: Event, after: map<Path, Entry>) {
    match event
    case Create(e) => PathOf(e) in after && after[PathOf(e)].value == e.value
    case Modify(_, e) => PathOf(e) in after && after[PathOf(e)].value == e.value
    case Delete(e) => PathOf(e) !in after
  }

  /** What is not as `after` has it, is still to be told. */
  ghost predicate Told(m: map<Path, Entry>, events: seq<Event>, after: map<Path, Entry>, q: Path) {
    SameAt(m, after, q) || exists event :: event in events && Concerns(event, q)
  }

  lemma AllSame(a: map<Path, Entry>, b: map<Path, Entry>)
    requires forall q :: SameAt(a, b, q)
    ensures SameEntries(a, b)
  {
    forall q
      ensures q in a.Keys <==> q in b.Keys
      ensures q in a ==> q in b && a[q].value == b[q].value
    {
      assert SameAt(a, b, q);
    }
  }

  lemma {:induction false} ReplayLeadsTo(m: map<Path, Entry>, events: seq<Event>, after: map<Path, Entry>)
    requires forall event <- events :: LeadsTo(event, after)
    requires forall q :: Told(m, events, after, q)
    ensures SameEntries(Replay(m, events), after)
    decreases |events|
  {
    if events == [] {
      forall q
        ensures SameAt(m, after, q)
      {
        assert Told(m, events, after, q);
      }
      AllSame(m, after);
    } else {
      var event, rest := events[0], events[1..];
      assert event in events && LeadsTo(event, after);
      var m' := Apply(m, event);
      forall q
        ensures Told(m', rest, after, q)
      {
        assert Told(m, events, after, q);
        if !SameAt(m', after, q) {
          assert !Concerns(event, q);
          var event' :| event' in events && Concerns(event', q);
          assert event' in rest;
        }
      }
      ReplayLeadsTo(m', rest, after);
    }
  }

  /** One poll: an observer that held the old entries holds the new ones after its events. */
  lemma PollReplays(m: map<Path, Entry>, before: map<Path, Entry>, after: map<Path, Entry>, events: seq<Event>)
    requires SameEntries(m, before) && Keyed(before) && Keyed(after) && Emits(before, after, events)
    ensures SameEntries(Replay(m, events), after)
  {
    forall event | event in events
      ensures LeadsTo(event, after)
    {
      assert Has(Diff(before, after), event);
      var key := KeyFor(before, after, event);
    }
    forall q
      ensures Told(m, events, after, q)
    {
      if !SameAt(m, after, q) {
        var event := EventFor(before, after, q);
        assert Has(Diff(before, after), event) && Emitted(event) && Concerns(event, q);
      }
    }
    ReplayLeadsTo(m, events, after);
  }

  // ----- runs

  datatype Action =
    | Poll(fs: Snapshot, events: seq<Event>)
    | Add(path: Path, maxDepth: int, fs: Snapshot)

  datatype Watcher = Watcher(registered: Registered, entries: map<Path, Entry>)

  /** `addAll`: the entries of the list replace those of the map. */
  ghost predicate IsMerge(m: map<Path, Entry>, added: set<Entry>, merged: map<Path, Entry>) {
    && (forall q :: q in merged <==> q in m || exists e :: e in added && PathOf(e) == q)
    && (forall q <- merged :: (merged[q] in added && PathOf(merged[q]) == q)
                              || (q in m && merged[q] == m[q] && forall e <- added :: PathOf(e) != q))
  }

  /** A poll replaces the entries and emits events; a registration adds its entries silently. */
  ghost predicate Next(w: Watcher, action: Action, w': Watcher) {
    match action
    case Poll(fs, events) =>
      && w'.registered == w.registered && IsPoll(fs, w.registered, w'.entries)
      && Emits(w.entries, w'.entries, events)
    case Add(path, maxDepth, fs) =>
      && path in w'.registered && w'.registered - {path} == w.registered - {path}
      && w'.registered[path] == (if path in w.registered then Max(w.registered[path], maxDepth) else maxDepth)
      && IsMerge(w.entries, EntriesAt(fs, path, maxDepth), w'.entries)
  }

  ghost predicate IsRun(states: seq<Watcher>, actions: seq<Action>) {
    && |states| == |actions| + 1 && states[0] == Watcher(map[], map[])
    && forall i | 0 <= i < |actions| :: Next(states[i], actions[i], states[i + 1])
  }

  lemma {:induction false} RunsKeyed(states: seq<Watcher>, actions: seq<Action>, i: nat)
    requires IsRun(states, actions) && i <= |actions|
    ensures Keyed(states[i].entries)
    decreases i
  {
    if i > 0 {
      RunsKeyed(states, actions, i - 1);
      assert Next(states[i - 1], actions[i - 1], states[i - 1 + 1]);
    }
  }

  /** The events emitted by the actions from `j` up to `i`. */
  function EventsBetween(actions: seq<Action>, j: nat, i: nat): seq<Event>
    requires j <= i <= |actions|
    decreases i
  {
    if i == j then []
    else EventsBetween(actions, j, i - 1) + if actions[i - 1].Poll? then actions[i - 1].events else []
  }

  /** Diffs telescope: over any sequence of polls, whatever the file system is at each, the emitted
      events replayed on the first entries give the last ones. */
  lemma {:induction false} PollsTelescope(states: seq<Watcher>, actions: seq<Action>, j: nat, i: nat)
    requires IsRun(states, actions) && j <= i <= |actions|
    requires forall k | j <= k < i :: actions[k].Poll?
    ensures SameEntries(Replay(states[j].entries, EventsBetween(actions, j, i)), states[i].entries)
    decreases i
  {
    if i > j {
      PollsTelescope(states, actions, j, i - 1);
      RunsKeyed(states, actions, i - 1);
      RunsKeyed(states, actions, i);
      assert Next(states[i - 1], actions[i - 1], states[i - 1 + 1]);
      var m := Replay(states[j].entries, EventsBetween(actions, j, i - 1));
      CacheRuns.ReplayConcat(states[j].entries, EventsBetween(actions, j, i - 1), actions[i - 1].events);
      PollReplays(m, states[i - 1].entries, states[i].entries, actions[i - 1].events);
    }
  }

  // ----- what the observers receive

  /** What a poll has to say of one path: it is new, it is gone, or it has another value. */
  function ReportOf(before: map<Path, Entry>, after: map<Path, Entry>, q: Path): Option<PathEvent> {
    if q in after && q !in before then Some(PathEvent(after[q].tp, CreateKind))
    else if q in before && q !in after then Some(PathEvent(before[q].tp, DeleteKind))
    else if q in before && q in after && before[q].value != after[q].value then
      Some(PathEvent(after[q].tp, ModifyKind))
    else None
  }

  predicate Observes(observed: seq<PathEvent>, q: Path, kind: PathEventKind) {
    exists i :: 0 <= i < |observed| && observed[i].tp.path.names == q && observed[i].kind == kind
  }

  /** The observers receive a creation for each path that is new, a deletion for each that is gone and a
      modification for each whose value has changed, with the typed path of its entry; no path twice, and
      nothing else. */
  ghost predicate Reports(before: map<Path, Entry>, after: map<Path, Entry>, observed: seq<PathEvent>) {
    && (forall q :: Observes(observed, q, CreateKind) <==> q in after && q !in before)
    && (forall q :: Observes(observed, q, DeleteKind) <==> q in before && q !in after)
    && (forall q :: Observes(observed, q, ModifyKind) <==>
                    q in before && q in after && before[q].value != after[q].value)
    && (forall i, j | 0 <= i < j < |observed| :: observed[i].tp.path.names != observed[j].tp.path.names)
    && (forall i | 0 <= i < |observed| :: HasTypedPath(before, after, observed[i].tp))
  }

  predicate HasTypedPath(before: map<Path, Entry>, after: map<Path, Entry>, tp: TypedPath) {
    var q := tp.path.names;
    if q in after then tp == after[q].tp else q in before && tp == before[q].tp
  }

  /** `observed` is what there is to say of the keys. */
  ghost predicate ReportsKeys(before: map<Path, Entry>, after: map<Path, Entry>, keys: seq<Path>,
                              observed: seq<PathEvent>)
  {
    && (forall i | 0 <= i < |observed| ::
          observed[i].tp.path.names in keys
          && ReportOf(before, after, observed[i].tp.path.names) == Some(observed[i]))
    && (forall q | q in keys && ReportOf(before, after, q).Some? :: ReportOf(before, after, q).value in observed)
    && (forall i, j | 0 <= i < j < |observed| :: observed[i].tp.path.names != observed[j].tp.path.names)
  }

  lemma {:induction false} CallsReport(before: map<Path, Entry>, after: map<Path, Entry>, calls: seq<Event>,
                                       keys: seq<Path>)
    requires Keyed(before) && Keyed(after) && OnePerKey(before, after, calls, keys)
    ensures ReportsKeys(before, after, keys, ObserveAll(EmittedOf(calls)))
    decreases |calls|
  {
    if calls != [] {
      var k := |calls| - 1;
      CallsReport(before, after, calls[..k], keys[..k]);
      assert keys == keys[..k] + [keys[k]] && calls[k] == EventFor(before, after, keys[k]);
      var earlier := ObserveAll(EmittedOf(calls[..k]));
      OneReport(before, after, calls[k], keys[k]);
      if Emitted(calls[k]) {
        assert EmittedOf(calls) == EmittedOf(calls[..k]) + [calls[k]];
        assert ObserveAll(EmittedOf(calls)) == earlier + [Observe(calls[k])];
        ReportMore(before, after, keys[..k], keys[k], earlier, Observe(calls[k]));
      } else {
        assert EmittedOf(calls) == EmittedOf(calls[..k]) + [];
        assert ObserveAll(EmittedOf(calls)) == earlier;
      }
    }
  }

  lemma OneReport(before: map<Path, Entry>, after: map<Path, Entry>, call: Event, key: Path)
    requires Keyed(before) && Keyed(after) && (key in before || key in after) && call == EventFor(before, after, key)
    ensures ReportOf(before, after, key) == if Emitted(call) then Some(Observe(call)) else None
    ensures Emitted(call) ==> Observe(call).tp.path.names == key
  {
  }

  lemma ReportMore(before: map<Path, Entry>, after: map<Path, Entry>, keys: seq<Path>, key: Path,
                   observed: seq<PathEvent>, event: PathEvent)
    requires ReportsKeys(before, after, keys, observed) && key !in keys
    requires ReportOf(before, after, key) == Some(event) && event.tp.path.names == key
    ensures ReportsKeys(before, after, keys + [key], observed + [event])
  {
  }

  lemma ObservesOne(before: map<Path, Entry>, after: map<Path, Entry>, keys: seq<Path>, observed: seq<PathEvent>,
                    q: Path, kind: PathEventKind)
    requires Keyed(before) && Keyed(after) && ReportsKeys(before, after, keys, observed)
    requires forall key :: key in keys <==> key in before || key in after
    ensures Observes(observed, q, kind)
       <==> ReportOf(before, after, q).Some? && ReportOf(before, after, q).value.kind == kind
  {
    if ReportOf(before, after, q).Some? && ReportOf(before, after, q).value.kind == kind {
      var event := ReportOf(before, after, q).value;
      assert q in keys && event in observed;
      var i :| 0 <= i < |observed| && observed[i] == event;
      assert observed[i].tp.path.names == q;
    }
  }

  lemma ObservedTyped(before: map<Path, Entry>, after: map<Path, Entry>, keys: seq<Path>, observed: seq<PathEvent>,
                      i: nat)
    requires ReportsKeys(before, after, keys, observed) && i < |observed|
    ensures HasTypedPath(before, after, observed[i].tp)
  {
  }

  /** What the calls of a difference make the observers receive. */
  lemma DifferenceReports(before: map<Path, Entry>, after: map<Path, Entry>, calls: seq<Event>, keys: seq<Path>)
    requires Keyed(before) && Keyed(after) && OnePerKey(before, after, calls, keys)
    requires forall key :: key in keys <==> key in before || key in after
    ensures Reports(before, after, ObserveAll(EmittedOf(calls)))
  {
    CallsReport(before, after, calls, keys);
    KeysReport(before, after, keys, ObserveAll(EmittedOf(calls)));
  }

  lemma KeysReport(before: map<Path, Entry>, after: map<Path, Entry>, keys: seq<Path>, observed: seq<PathEvent>)
    requires Keyed(before) && Keyed(after) && ReportsKeys(before, after, keys, observed)
    requires forall key :: key in keys <==> key in before || key in after
    ensures Reports(before, after, observed)
  {
    forall q
      ensures Observes(observed, q, CreateKind) <==> q in after && q !in before
      ensures Observes(observed, q, DeleteKind) <==> q in before && q !in after
      ensures Observes(observed, q, ModifyKind)
         <==> q in before && q in after && before[q].value != after[q].value
    {
      ObservesOne(before, after, keys, observed, q, CreateKind);
      ObservesOne(before, after, keys, observed, q, DeleteKind);
      ObservesOne(before, after, keys, observed, q, ModifyKind);
    }
    forall i | 0 <= i < |observed|
      ensures HasTypedPath(before, after, observed[i].tp)
    {
      ObservedTyped(before, after, keys, observed, i);
    }
  }

  // ----- the object

  lemma SingleEntry(entries: seq<Entry>, e: Entry)
    requires forall x :: multiset(entries)[x] == One(x == e)
    ensures |entries| == 1 && entries[0] == e
  {
    assert multiset(entries) == multiset{e};
    assert |multiset(entries)| == |entries|;
    assert entries[0] in multiset(entries);
  }

  class PollingPathWatcher {
    const registry: DirectoryRegistry
    var oldEntries: map<Path, Entry>

    /** Every entry is kept under its own path. */
    ghost predicate Valid()
      reads this
    {
      Keyed(oldEntries)
    }

    constructor ()
      ensures Valid() && Value() == Watcher(map[], map[]) && fresh(registry)
    {
      registry := new DirectoryRegistry();
      oldEntries := map[];
    }

    ghost function Value(): Watcher
      reads this, registry
    {
      Watcher(registry.registered, oldEntries)
    }

    /** `getEntries` of one registered path: a cached directory is scanned and listed, and its own
        entry is added. */
    method EntriesOf(path: Path, maxDepth: int, fs: Snapshot) returns (entries: seq<Entry>)
      requires WellFormed(fs.root, []) && |path| <= MAX_INT && maxDepth <= MAX_INT
      ensures Elems(entries) == EntriesAt(fs, path, maxDepth)
    {
      var view := new CachedDirectory(Stat(fs, path), fs, maxDepth, AllPass);
      var error := view.Init(fs);
      if error.Some? {
        entries := if error.value == NotDirectory then [Entry(Stat(fs, path), fs.convert(path))] else [];
        return;
      }
      var newEntries := view.ListEntries(maxDepth, EveryEntry, view.nodes);
      var pathEntry := view.ListEntries(-1, EveryEntry, view.nodes);
      entries := newEntries;
      if view.view.entry.tp.present {
        SingleEntry(pathEntry, view.view.entry);
      }
      if |pathEntry| == 1 {
        entries := entries + [pathEntry[0]];
      }
    }

    /** `addAll`. */
    method AddAll(m: map<Path, Entry>, list: seq<Entry>) returns (merged: map<Path, Entry>)
      ensures IsMerge(m, Elems(list), merged)
    {
      merged := m;
      for i := 0 to |list|
        invariant IsMerge(m, Elems(list[..i]), merged)
      {
        var e := list[i];
        assert list[..i + 1] == list[..i] + [e];
        assert Elems(list[..i + 1]) == Elems(list[..i]) + {e};
        MergeOne(m, Elems(list[..i]), merged, e);
        merged := merged[PathOf(e) := e];
      }
      assert list[..|list|] == list;
    }

    /** `getEntries`: the registered paths in some order. */
    method GetEntries(fs: Snapshot) returns (found: map<Path, Entry>)
      requires WellFormed(fs.root, [])
      requires forall dir <- registry.registered :: |dir| <= MAX_INT && registry.registered[dir] <= MAX_INT
      ensures IsPoll(fs, registry.registered, found)
    {
      found := map[];
      var todo := registry.registered.Keys;
      while todo != {}
        invariant todo <= registry.registered.Keys
        invariant IsPoll(fs, registry.registered - todo, found)
        decreases todo
      {
        var dir :| dir in todo;
        var entries := EntriesOf(dir, registry.registered[dir], fs);
        var more := AddAll(found, entries);
        PollOne(fs, registry.registered, todo, dir, found, more);
        found, todo := more, todo - {dir};
      }
      assert registry.registered - {} == registry.registered;
    }

    /** `register`: its entries are not reported. */
    method Register(path: Path, maxDepth: int, fs: Snapshot) returns (added: bool)
      requires Valid() && WellFormed(fs.root, []) && |path| <= MAX_INT && maxDepth <= MAX_INT
      modifies this, registry
      ensures Valid()
      ensures added <==> path !in old(registry.registered) || old(registry.registered)[path] < maxDepth
      ensures path in registry.registered && registry.registered[path] >= maxDepth
      ensures Next(old(Value()), Add(path, maxDepth, fs), Value())
    {
      var entries := EntriesOf(path, maxDepth, fs);
      oldEntries := AddAll(oldEntries, entries);
      added := registry.AddDirectory(path, maxDepth);
    }

    /** One poll: the events that the observers receive, and the calls they stand for. */
    method Run(fs: Snapshot) returns (observed: seq<PathEvent>, ghost events: seq<Event>)
      requires Valid() && WellFormed(fs.root, [])
      requires forall dir <- registry.registered :: |dir| <= MAX_INT && registry.registered[dir] <= MAX_INT
      modifies this
      ensures Valid() && Next(old(Value()), Poll(fs, events), Value())
      ensures observed == ObserveAll(events) && Reports(old(oldEntries), oldEntries, observed)
    {
      var newEntries := GetEntries(fs);
      var calls;
      ghost var keys;
      calls, keys := DiffDirectoryEntries(oldEntries, newEntries);
      observed := NotifyObservers(calls);
      events := EmittedOf(calls);
      EmittedElements(calls);
      DifferenceReports(oldEntries, newEntries, calls, keys);
      oldEntries := newEntries;
    }

    /** What the cache observer makes of the calls of a difference. */
    method NotifyObservers(calls: seq<Event>) returns (observed: seq<PathEvent>)
      ensures observed == ObserveAll(EmittedOf(calls))
    {
      observed := [];
      for i := 0 to |calls|
        invariant observed == ObserveAll(EmittedOf(calls[..i]))
      {
        assert calls[..i + 1][..i] == calls[..i];
        match calls[i] {
          case Create(e) => observed := observed + [PathEvent(e.tp, CreateKind)];
          case Modify(before, after) =>
            if before.value != after.value {
              observed := observed + [PathEvent(after.tp, ModifyKind)];
            }
          case Delete(e) => observed := observed + [PathEvent(e.tp, DeleteKind)];
        }
      }
      assert calls[..|calls|] == calls;
    }
  }

  /** The calls that lead to events, in order. */
  function EmittedOf(calls: seq<Event>): seq<Event> {
    if calls == [] then []
    else
      EmittedOf(calls[..|calls| - 1])
      + if Emitted(calls[|calls| - 1]) then [calls[|calls| - 1]] else []
  }

  function ObserveAll(events: seq<Event>): seq<PathEvent> {
    seq(|events|, i requires 0 <= i < |events| => Observe(events[i]))
  }

  lemma {:induction false} EmittedElements(calls: seq<Event>)
    ensures forall event :: event in EmittedOf(calls) <==> event in calls && Emitted(event)
    decreases |calls|
  {
    if calls != [] {
      EmittedElements(calls[..|calls| - 1]);
      assert calls == calls[..|calls| - 1] + [calls[|calls| - 1]];
    }
  }

  lemma MergeOne(m: map<Path, Entry>, added: set<Entry>, merged: map<Path, Entry>, e: Entry)
    requires IsMerge(m, added, merged)
    ensures IsMerge(m, added + {e}, merged[PathOf(e) := e])
  {
  }

  lemma PollOne(fs: Snapshot, reg: Registered, todo: set<Path>, dir: Path, found: map<Path, Entry>,
                more: map<Path, Entry>)
    requires WellFormed(fs.root, []) && dir in todo && todo <= reg.Keys && |dir| <= MAX_INT && reg[dir] <= MAX_INT
    requires IsPoll(fs, reg - todo, found) && IsMerge(found, EntriesAt(fs, dir, reg[dir]), more)
    ensures IsPoll(fs, reg - (todo - {dir}), more)
  {
    var seen, now := reg - todo, reg - (todo - {dir});
    forall q
      ensures q in more <==> exists d :: d in now && Visible(fs, d, now[d], q)
    {
      if q in more {
        if q in found {
          var d :| d in seen && Visible(fs, d, seen[d], q);
          assert d in now && now[d] == seen[d];
        } else {
          var e :| e in EntriesAt(fs, dir, reg[dir]) && PathOf(e) == q;
          EntriesVisible(fs, dir, reg[dir], e);
          assert dir in now;
        }
      }
      if d :| d in now && Visible(fs, d, now[d], q) {
        if d == dir {
          var e := VisibleEntry(fs, dir, reg[dir], q);
        } else {
          assert d in seen && seen[d] == now[d];
        }
      }
    }
    forall q | q in more
      ensures more[q].tp.path == Abs(q) && more[q].value == fs.convert(q)
    {
      if more[q] in EntriesAt(fs, dir, reg[dir]) {
        EntriesVisible(fs, dir, reg[dir], more[q]);
      }
    }
  }
}
