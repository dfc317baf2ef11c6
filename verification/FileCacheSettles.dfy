/** Settling at the level of the registry: when listing what is registered reports the file system again,
    after the events for all that has changed have been handled. */
module FileCacheSettles {
  import opened Wrappers
  import opened Entries
  import opened Snapshots
  import opened CacheTree
  import opened CacheInvariants
  import opened CacheDeliveries
  import opened CacheSettles
  import opened CacheSettlesListing
  import opened CacheFilters
  import opened DirectoryRegistries
  import opened FileCacheTree
  import opened FileCacheCoverage
  import opened FileCacheListing

  /** A stored directory that exists; what it holds may differ from the file system in any way. */
  ghost predicate Stored(c: Cached, key: Path, fs: Snapshot) {
    && NodeAt(fs.root, key).Some? && NodeAt(fs.root, key).value.Folder?
    && Placed(c, key, NodeAt(fs.root, key).value, fs) && Tidy(c, NodeAt(fs.root, key).value)
    && c.entry.tp.present
  }

  ghost predicate EachStored(s: FileCache, fs: Snapshot) {
    forall key <- s.directories :: Stored(s.directories[key], key, fs)
  }

  /** Every stored directory is one, and no deeper than what is registered leaves for it; what is pending is
      registered. */
  ghost predicate AllStored(s: FileCache, fs: Snapshot) {
    && DepthsOk(s.registered) && DepthsOk(DepthsOf(s.directories)) && s.pending <= s.registered.Keys
    && NoneDeeper(s) && EachStored(s, fs)
  }

  type Delivery = (Path, bool)

  /** The event of a path that is gone, of one that some directory reaches, or of one that is not registered.
      A stored directory that is to be rescanned can be read. */
  predicate Handled(reg: Registered, depths: Depths, fs: Snapshot, event: Delivery) {
    && Proper(event.0) && |event.0| <= MAX_INT
    && (NodeAt(fs.root, event.0).Some? ==> FindKey(depths, event.0).Some? || event.0 !in reg)
    && (event.0 in depths && event.1 ==> ListDirectory(fs, event.0).Children?)
  }

  /** The event for `x` reaches the directory `key`: one that is gone is removed from every directory above
      it, one that exists is updated in the directory that `find` returns, and in no other. */
  predicate Reached(depths: Depths, fs: Snapshot, key: Path, x: Path) {
    key <= x && (NodeAt(fs.root, x).None? || FindKey(depths, x) == Some(key))
  }

  /** What one event does to one stored directory. */
  function DirectoryAfter(c: Cached, key: Path, depths: Depths, fs: Snapshot, event: Delivery): Cached
    requires PathOf(c.entry) == key
  {
    if Reached(depths, fs, key, event.0) then Update(c, Reading(fs, event.0), event.1, AllPass, fs).tree else c
  }

  // ----- one event

  /** What one event does to every stored directory. */
  ghost predicate EachAfter(s: FileCache, s': FileCache, fs: Snapshot, event: Delivery) {
    && s'.registered == s.registered && s'.directories.Keys == s.directories.Keys
    && (s.pending <= s.registered.Keys ==> s'.pending <= s'.registered.Keys)
    && forall key <- s.directories :: OneAfter(s, s', fs, event, key)
  }

  ghost predicate OneAfter(s: FileCache, s': FileCache, fs: Snapshot, event: Delivery, key: Path)
    requires key in s.directories && key in s'.directories
  {
    && PathOf(s.directories[key].entry) == key
    && s'.directories[key] == DirectoryAfter(s.directories[key], key, DepthsOf(s.directories), fs, event)
  }

  /** Every directory is stored under its own path, and exists. */
  ghost predicate Keyed(s: FileCache, fs: Snapshot) {
    forall key <- s.directories :: PathOf(s.directories[key].entry) == key && NodeAt(fs.root, key).Some?
  }

  lemma StoredKeyed(s: FileCache, fs: Snapshot)
    requires EachStored(s, fs)
    ensures Keyed(s, fs)
  {
    forall key | key in s.directories
      ensures PathOf(s.directories[key].entry) == key && NodeAt(fs.root, key).Some?
    {
      assert Stored(s.directories[key], key, fs);
    }
  }

  lemma DeleteReaches(s: FileCache, fs: Snapshot, event: Delivery)
    requires Keyed(s, fs) && NodeAt(fs.root, event.0).None?
    ensures EachAfter(s, HandleDelete(s, event.0).0, fs, event)
  {
    var s' := HandleDelete(s, event.0).0;
    assert event.0 !in s.directories;
    assert s'.directories.Keys == s.directories.Keys;
    forall key | key in s.directories
      ensures OneAfter(s, s', fs, event, key)
    {
      DeleteReachesOne(s, fs, event, key);
    }
  }

  lemma DeleteReachesOne(s: FileCache, fs: Snapshot, event: Delivery, key: Path)
    requires Keyed(s, fs) && NodeAt(fs.root, event.0).None? && key in s.directories && key != event.0
    ensures OneAfter(s, HandleDelete(s, event.0).0, fs, event, key)
  {
  }

  lemma ReadingPath(fs: Snapshot, x: Path)
    ensures UpdatePath(Reading(fs, x)) == Reading(fs, x)
  {
  }

  lemma UpdateWithin(c: Cached, key: Path, fs: Snapshot, event: Delivery, accept: TypedPath -> bool)
    requires Struct(c, key) && AcceptsWithin(accept, key, c.depth) && WellFormed(fs.root, []) && -1 <= c.depth
    requires key <= event.0 && Reaches(c.depth, key, event.0) && Proper(event.0) && |event.0| <= MAX_INT
    requires key == event.0 && event.1 ==> ListDirectory(fs, key).Children?
    ensures var r := Update(c, Reading(fs, event.0), event.1, AllPass, fs);
            Update(c, Reading(fs, event.0), event.1, accept, fs) == r && r.Updated?
  {
    assert Within(c.depth, |event.0| - |key|);
    UpdateSame(c, key, Reading(fs, event.0), event.1, accept, fs);
  }

  /** An event for a path that exists updates the directory that `find` returns. */
  lemma UpdateReaches(s: FileCache, fs: Snapshot, event: Delivery, key: Path)
    requires AllStored(s, fs) && Handled(s.registered, DepthsOf(s.directories), fs, event)
    requires FindKey(DepthsOf(s.directories), event.0) == Some(key) && NodeAt(fs.root, event.0).Some?
    ensures key in s.directories && PathOf(s.directories[key].entry) == key && key <= event.0
    ensures HandleUpdate(s, key, Reading(fs, event.0), event.1, AllPass, fs).0
         == s.(directories :=
                 s.directories[key := Update(s.directories[key], Reading(fs, event.0), event.1, AllPass, fs).tree])
  {
    var c, accept := s.directories[key], CacheFilter(AllPass, s.registered);
    assert Stored(c, key, fs) && DepthsOf(s.directories)[key] == c.depth && LeavesDepth(s.registered, key, c.depth);
    assert key in DepthsOf(s.directories);
    RegisteredWithin(s.registered, key, c.depth);
    UpdateWithin(c, key, fs, event, accept);
    ReadingPath(fs, event.0);
  }

  /** The cache after one event. */
  ghost function HandleOne(s: FileCache, fs: Snapshot, event: Delivery): FileCache
    requires AllStored(s, fs)
  {
    assert forall key <- s.directories :: Stored(s.directories[key], key, fs);
    HandleEvent(s, Reading(fs, event.0), event.1, AllPass, fs).0
  }

  lemma HandleOneIs(s: FileCache, fs: Snapshot, event: Delivery, key: Path)
    requires AllStored(s, fs) && Handled(s.registered, DepthsOf(s.directories), fs, event)
    requires NodeAt(fs.root, event.0).Some? && FindKey(DepthsOf(s.directories), event.0) == Some(key)
    ensures key in s.directories && PathOf(s.directories[key].entry) == key && key <= event.0
    ensures HandleOne(s, fs, event)
         == s.(directories :=
                 s.directories[key := Update(s.directories[key], Reading(fs, event.0), event.1, AllPass, fs).tree])
  {
    UpdateReaches(s, fs, event, key);
  }

  lemma PresentReaches(s: FileCache, s': FileCache, fs: Snapshot, event: Delivery, key: Path)
    requires Keyed(s, fs) && key in s.directories && NodeAt(fs.root, event.0).Some?
    requires FindKey(DepthsOf(s.directories), event.0) == Some(key) && key <= event.0
    requires s' == s.(directories := s.directories[key := Update(s.directories[key], Reading(fs, event.0), event.1,
                                                                 AllPass, fs).tree])
    ensures EachAfter(s, s', fs, event)
  {
    assert s'.directories.Keys == s.directories.Keys;
  }

  lemma EventStep(s: FileCache, fs: Snapshot, event: Delivery)
    requires AllStored(s, fs) && Handled(s.registered, DepthsOf(s.directories), fs, event)
    ensures EachAfter(s, HandleOne(s, fs, event), fs, event)
  {
    StoredKeyed(s, fs);
    if NodeAt(fs.root, event.0).None? {
      DeleteReaches(s, fs, event);
    } else {
      match FindKey(DepthsOf(s.directories), event.0) {
        case Some(key) =>
          HandleOneIs(s, fs, event, key);
          PresentReaches(s, HandleOne(s, fs, event), fs, event, key);
        case None =>
          assert HandleOne(s, fs, event) == s;
      }
    }
  }

  lemma StaysStored(c: Cached, key: Path, depths: Depths, fs: Snapshot, event: Delivery)
    requires Stored(c, key, fs)
    ensures PathOf(c.entry) == key && Stored(DirectoryAfter(c, key, depths, fs, event), key, fs)
    ensures DirectoryAfter(c, key, depths, fs, event).depth == c.depth
  {
    if Reached(depths, fs, key, event.0) {
      var node := NodeAt(fs.root, key).value;
      DeliverOne(c, key, node, fs, event.0, event.1);
      DeliverTidy(c, key, node, fs, event.0, event.1);
    }
  }

  /** The stored directories keep their depths. */
  ghost predicate SameDepthsAs(s: FileCache, s': FileCache) {
    && s'.registered == s.registered && s'.directories.Keys == s.directories.Keys
    && DepthsOf(s'.directories) == DepthsOf(s.directories)
  }

  lemma EventKeeps(s: FileCache, fs: Snapshot, event: Delivery)
    requires AllStored(s, fs) && Handled(s.registered, DepthsOf(s.directories), fs, event)
    ensures AllStored(HandleOne(s, fs, event), fs) && SameDepthsAs(s, HandleOne(s, fs, event))
  {
    EventStep(s, fs, event);
    AfterKeeps(s, HandleOne(s, fs, event), fs, event);
  }

  lemma AfterKeeps(s: FileCache, s': FileCache, fs: Snapshot, event: Delivery)
    requires AllStored(s, fs) && EachAfter(s, s', fs, event)
    ensures AllStored(s', fs) && SameDepthsAs(s, s')
  {
    forall key | key in s.directories
      ensures Stored(s'.directories[key], key, fs) && s'.directories[key].depth == s.directories[key].depth
    {
      AfterKeepsOne(s, s', fs, event, key);
    }
    DepthsSame(s.directories, s'.directories);
    DeeperSame(s, s');
  }

  lemma AfterKeepsOne(s: FileCache, s': FileCache, fs: Snapshot, event: Delivery, key: Path)
    requires EachStored(s, fs) && EachAfter(s, s', fs, event) && key in s.directories
    ensures Stored(s'.directories[key], key, fs) && s'.directories[key].depth == s.directories[key].depth
  {
    assert Stored(s.directories[key], key, fs) && OneAfter(s, s', fs, event, key);
    StaysStored(s.directories[key], key, DepthsOf(s.directories), fs, event);
  }

  lemma DepthsSame(a: map<Path, Cached>, b: map<Path, Cached>)
    requires a.Keys == b.Keys && forall key <- a :: a[key].depth == b[key].depth
    ensures DepthsOf(a) == DepthsOf(b)
  {
  }

  lemma DeeperSame(s: FileCache, s': FileCache)
    requires NoneDeeper(s) && s'.registered == s.registered && s'.directories.Keys == s.directories.Keys
    requires forall key <- s.directories :: s'.directories[key].depth == s.directories[key].depth
    ensures NoneDeeper(s')
  {
  }

  // ----- any number of events

  ghost predicate AllHandled(s: FileCache, fs: Snapshot, events: seq<Delivery>) {
    forall i | 0 <= i < |events| :: Handled(s.registered, DepthsOf(s.directories), fs, events[i])
  }

  lemma RestHandled(s: FileCache, s': FileCache, fs: Snapshot, events: seq<Delivery>)
    requires AllHandled(s, fs, events) && events != [] && SameDepthsAs(s, s')
    ensures Handled(s.registered, DepthsOf(s.directories), fs, events[0]) && AllHandled(s', fs, events[1..])
  {
  }

  /** The cache after the events, one after the other. */
  ghost function HandleAll(s: FileCache, fs: Snapshot, events: seq<Delivery>): FileCache
    requires AllStored(s, fs) && AllHandled(s, fs, events)
    decreases |events|
  {
    if events == [] then s
    else
      EventKeeps(s, fs, events[0]);
      HandleAll(HandleOne(s, fs, events[0]), fs, events[1..])
  }

  /** The events that reach one directory. */
  function EventsFor(depths: Depths, fs: Snapshot, key: Path, events: seq<Delivery>): (reached: seq<Delivery>)
    ensures forall i | 0 <= i < |reached| :: key <= reached[i].0
    decreases |events|
  {
    if events == [] then []
    else
      (if Reached(depths, fs, key, events[0].0) then [events[0]] else []) + EventsFor(depths, fs, key, events[1..])
  }

  /** They are those of the events that reach it. */
  lemma {:induction false} EventsForAre(depths: Depths, fs: Snapshot, key: Path, events: seq<Delivery>, event: Delivery)
    ensures event in EventsFor(depths, fs, key, events) <==> event in events && Reached(depths, fs, key, event.0)
    decreases |events|
  {
    if events != [] {
      EventsForAre(depths, fs, key, events[1..], event);
      assert event in events <==> event == events[0] || event in events[1..];
    }
  }

  /** Each stored directory receives the events that reach it, in their order. */
  lemma {:induction false} DirectoriesAfter(s: FileCache, fs: Snapshot, events: seq<Delivery>, key: Path)
    requires AllStored(s, fs) && AllHandled(s, fs, events) && key in s.directories
    ensures PathOf(s.directories[key].entry) == key && s.directories[key].entry.tp.path.Abs?
    ensures var s' := HandleAll(s, fs, events);
            && AllStored(s', fs) && SameDepthsAs(s, s')
            && s'.directories[key]
               == Deliver(s.directories[key], fs, EventsFor(DepthsOf(s.directories), fs, key, events))
    decreases |events|
  {
    assert Stored(s.directories[key], key, fs);
    if events != [] {
      var s1 := HandleOne(s, fs, events[0]);
      assert Handled(s.registered, DepthsOf(s.directories), fs, events[0]);
      EventKeeps(s, fs, events[0]);
      assert OneAfter(s, s1, fs, events[0], key) by { EventStep(s, fs, events[0]); }
      RestHandled(s, s1, fs, events);
      DirectoriesAfter(s1, fs, events[1..], key);
      DeliverFirst(s.directories[key], key, DepthsOf(s.directories), fs, events);
    }
  }

  lemma DeliverFirst(c: Cached, key: Path, depths: Depths, fs: Snapshot, events: seq<Delivery>)
    requires Stored(c, key, fs) && events != []
    ensures PathOf(c.entry) == key && c.entry.tp.path.Abs?
    ensures var c1 := DirectoryAfter(c, key, depths, fs, events[0]);
            && c1.entry.tp.path == c.entry.tp.path
            && Deliver(c, fs, EventsFor(depths, fs, key, events))
               == Deliver(c1, fs, EventsFor(depths, fs, key, events[1..]))
  {
    var rest := EventsFor(depths, fs, key, events[1..]);
    if Reached(depths, fs, key, events[0].0) {
      UpdateSameEntry(c, fs, events[0].0, events[0].1);
      assert EventsFor(depths, fs, key, events) == [events[0]] + rest;
      assert ([events[0]] + rest)[1..] == rest;
    } else {
      assert EventsFor(depths, fs, key, events) == rest;
    }
  }

  // ----- settling

  /** The directory is wrong about `rel`, and holds no directory there that has become something else. */
  ghost predicate NeedsEvent(c: Cached, key: Path, fs: Snapshot, rel: Path) {
    && rel != [] && NodeAt(fs.root, key).Some?
    && !Right(c, NodeAt(fs.root, key).value, key, fs.convert, rel) && !Stale(c, NodeAt(fs.root, key).value, rel)
  }

  predicate IsEvent(events: seq<Delivery>, x: Path) {
    exists i :: 0 <= i < |events| && events[i].0 == x
  }

  /** An event that reaches the directory `key` refreshes all below a path above `rel`. */
  ghost predicate RefreshReaches(depths: Depths, fs: Snapshot, key: Path, events: seq<Delivery>, rel: Path) {
    && NodeAt(fs.root, key).Some?
    && exists i :: 0 <= i < |events| && RefreshesReached(depths, fs, key, events[i], rel)
  }

  ghost predicate RefreshesReached(depths: Depths, fs: Snapshot, key: Path, event: Delivery, rel: Path)
    requires NodeAt(fs.root, key).Some?
  {
    Reached(depths, fs, key, event.0) && RefreshesAt(key, NodeAt(fs.root, key).value, event, rel)
  }

  /** The path is delivered and its event reaches the directory, or an event that does refreshes it. */
  ghost predicate EventReaches(depths: Depths, fs: Snapshot, key: Path, events: seq<Delivery>, rel: Path) {
    || (Reached(depths, fs, key, key + rel) && IsEvent(events, key + rel))
    || RefreshReaches(depths, fs, key, events, rel)
  }

  /** Events reach every directory for every path that it has wrong. */
  ghost predicate WrongReached(s: FileCache, fs: Snapshot, events: seq<Delivery>) {
    forall key, rel | key in s.directories && NeedsEvent(s.directories[key], key, fs, rel) ::
      EventReaches(DepthsOf(s.directories), fs, key, events, rel)
  }

  /** What has flipped between file and directory. */
  ghost predicate Flipped(c: Cached, key: Path, fs: Snapshot, rel: Path) {
    && NodeAt(fs.root, key).Some?
    && (Stale(c, NodeAt(fs.root, key).value, rel) || FileOver(c, NodeAt(fs.root, key).value, rel))
  }

  /** Every path of the directory that has flipped is rescanned from above. */
  ghost predicate FlipsReached(c: Cached, key: Path, depths: Depths, fs: Snapshot, events: seq<Delivery>) {
    forall rel | Flipped(c, key, fs, rel) :: RefreshReaches(depths, fs, key, events, rel)
  }

  /** The directory's own entry is right, or there is an event for it that is no rescan. */
  ghost predicate OwnReached(c: Cached, key: Path, fs: Snapshot, events: seq<Delivery>) {
    NodeAt(fs.root, key).Some? && (c.entry == OwnEntry(NodeAt(fs.root, key).value, key, fs) || (key, false) in events)
  }

  /** What the events for the paths themselves cannot put right is put right. */
  ghost predicate AllRefreshed(s: FileCache, fs: Snapshot, events: seq<Delivery>) {
    forall key <- s.directories ::
      && FlipsReached(s.directories[key], key, DepthsOf(s.directories), fs, events)
      && OwnReached(s.directories[key], key, fs, events)
  }

  lemma RefreshesFor(depths: Depths, fs: Snapshot, key: Path, events: seq<Delivery>, rel: Path)
    requires NodeAt(fs.root, key).Some?
    ensures RefreshedAbove(key, NodeAt(fs.root, key).value, EventsFor(depths, fs, key, events), rel)
       <==> RefreshReaches(depths, fs, key, events, rel)
  {
    var node, reached := NodeAt(fs.root, key).value, EventsFor(depths, fs, key, events);
    if RefreshedAbove(key, node, reached, rel) {
      var i :| 0 <= i < |reached| && RefreshesAt(key, node, reached[i], rel);
      EventsForAre(depths, fs, key, events, reached[i]);
      var j :| 0 <= j < |events| && events[j] == reached[i];
      assert RefreshesReached(depths, fs, key, events[j], rel);
    }
    if RefreshReaches(depths, fs, key, events, rel) {
      var j :| 0 <= j < |events| && RefreshesReached(depths, fs, key, events[j], rel);
      EventsForAre(depths, fs, key, events, events[j]);
      var i :| 0 <= i < |reached| && reached[i] == events[j];
      assert RefreshesAt(key, node, reached[i], rel);
    }
  }

  /** The events for a stored directory itself reach it. */
  lemma OwnFor(depths: Depths, fs: Snapshot, key: Path, events: seq<Delivery>)
    requires key in depths && NodeAt(fs.root, key).Some? && NodeAt(fs.root, key).value.Folder?
    ensures OwnDelivered(key, NodeAt(fs.root, key).value, EventsFor(depths, fs, key, events))
       <==> (key, false) in events
  {
    var node, reached := NodeAt(fs.root, key).value, EventsFor(depths, fs, key, events);
    OwnFound(depths, key);
    EventsForAre(depths, fs, key, events, (key, false));
    if OwnDelivered(key, node, reached) {
      var i :| 0 <= i < |reached| && Renews(node, key, reached[i].0, reached[i].1);
      assert reached[i] == (key, false);
    }
    if (key, false) in reached {
      var i :| 0 <= i < |reached| && reached[i] == (key, false);
      assert Renews(node, key, reached[i].0, reached[i].1);
    }
  }

  lemma OwnFound(depths: Depths, key: Path)
    requires key in depths
    ensures FindKey(depths, key) == Some(key)
  {
    assert Reaches(depths[key], key, key);
    var found := FindKey(depths, key).value;
    assert found == key[..|found|] && |key| <= |found|;
    assert key[..|key|] == key;
  }

  /** A stored directory that gets events for all it has wrong ends as a mirror if and only if all that has
      flipped is rescanned from above and the own entry is right or delivered. */
  lemma StoredSettles(c: Cached, key: Path, fs: Snapshot, events: seq<Delivery>)
    requires Stored(c, key, fs) && DeliversAll(c, key, NodeAt(fs.root, key).value, fs, events)
    ensures var node := NodeAt(fs.root, key).value;
            Mirrors(Deliver(c, fs, events), key, fs)
            <==> FlipsRescanned(c, key, node, events) && OwnRight(c, key, node, fs, events)
  {
    var node, c' := NodeAt(fs.root, key).value, Deliver(c, fs, events);
    Settles(c, key, node, fs, events);
    StaysTidy(c, key, node, fs, events);
    FlipsLeft(c, c', key, node, fs, events);
    if NoneFlipped(c', node) {
      TidyClean(c', key, node);
      forall rel | rel != []
        ensures Right(c', node, key, fs.convert, rel)
      {
        assert Ends(c, c', key, node, fs, events, rel) && !Stale(c', node, rel);
      }
    }
    if Mirrors(c', key, fs) {
      RightUnflipped(c', key, node, fs.convert);
    }
  }

  lemma ReachedDelivers(c: Cached, key: Path, depths: Depths, fs: Snapshot, events: seq<Delivery>)
    requires NodeAt(fs.root, key).Some?
    requires forall rel | NeedsEvent(c, key, fs, rel) :: EventReaches(depths, fs, key, events, rel)
    ensures DeliversAll(c, key, NodeAt(fs.root, key).value, fs, EventsFor(depths, fs, key, events))
  {
    var node, reached := NodeAt(fs.root, key).value, EventsFor(depths, fs, key, events);
    forall rel | rel != []
      ensures Accounted(c, key, node, fs, reached, rel)
    {
      if NeedsEvent(c, key, fs, rel) {
        RefreshesFor(depths, fs, key, events, rel);
        if Reached(depths, fs, key, key + rel) && IsEvent(events, key + rel) {
          var i :| 0 <= i < |events| && events[i].0 == key + rel;
          EventsForAre(depths, fs, key, events, events[i]);
          var j :| 0 <= j < |reached| && reached[j] == events[i];
          assert IsDelivered(key, reached, rel);
        }
      }
    }
  }

  lemma DirectorySettles(s: FileCache, fs: Snapshot, events: seq<Delivery>, key: Path)
    requires AllStored(s, fs) && AllHandled(s, fs, events) && WrongReached(s, fs, events) && key in s.directories
    ensures var s' := HandleAll(s, fs, events);
            && key in s'.directories
            && (Mirrors(s'.directories[key], key, fs)
                <==> FlipsReached(s.directories[key], key, DepthsOf(s.directories), fs, events)
                     && OwnReached(s.directories[key], key, fs, events))
  {
    var c, depths := s.directories[key], DepthsOf(s.directories);
    assert Stored(c, key, fs) && key in depths;
    DirectoriesAfter(s, fs, events, key);
    ReachedDelivers(c, key, depths, fs, events);
    StoredSettles(c, key, fs, EventsFor(depths, fs, key, events));
    FlipsFor(c, key, depths, fs, events);
    OwnFor(depths, fs, key, events);
  }

  lemma FlipsFor(c: Cached, key: Path, depths: Depths, fs: Snapshot, events: seq<Delivery>)
    requires NodeAt(fs.root, key).Some?
    ensures FlipsRescanned(c, key, NodeAt(fs.root, key).value, EventsFor(depths, fs, key, events))
       <==> FlipsReached(c, key, depths, fs, events)
  {
    var node, reached := NodeAt(fs.root, key).value, EventsFor(depths, fs, key, events);
    forall rel
      ensures RefreshedAbove(key, node, reached, rel) <==> RefreshReaches(depths, fs, key, events, rel)
      ensures Flipped(c, key, fs, rel) <==> Stale(c, node, rel) || FileOver(c, node, rel)
    {
      RefreshesFor(depths, fs, key, events, rel);
    }
  }

  lemma {:induction false} HandledAll(s: FileCache, fs: Snapshot, events: seq<Delivery>)
    requires AllStored(s, fs) && AllHandled(s, fs, events)
    ensures AllStored(HandleAll(s, fs, events), fs) && SameDepthsAs(s, HandleAll(s, fs, events))
    decreases |events|
  {
    if events != [] {
      EventKeeps(s, fs, events[0]);
      RestHandled(s, HandleOne(s, fs, events[0]), fs, events);
      HandledAll(HandleOne(s, fs, events[0]), fs, events[1..]);
    }
  }

  /** After events for all that the stored directories have wrong, each of them reaching the directory that has
      it wrong, every stored directory mirrors the file system if and only if all that has flipped
      between file and directory is rescanned from above, and the own entries are right or delivered. */
  lemma EventsSettle(s: FileCache, fs: Snapshot, events: seq<Delivery>)
    requires AllStored(s, fs) && AllHandled(s, fs, events) && WrongReached(s, fs, events)
    ensures AllMirror(HandleAll(s, fs, events), fs) <==> AllRefreshed(s, fs, events)
  {
    var s' := HandleAll(s, fs, events);
    HandledAll(s, fs, events);
    forall key | key in s.directories
      ensures Mirrors(s'.directories[key], key, fs)
         <==> FlipsReached(s.directories[key], key, DepthsOf(s.directories), fs, events)
              && OwnReached(s.directories[key], key, fs, events)
    {
      DirectorySettles(s, fs, events, key);
    }
  }

  /** Listing the path, to any depth, reports the file system: of what exists, what the filter accepts or is
      not asked about. */
  ghost predicate ListsFileSystem(s: FileCache, fs: Snapshot, q: Path) {
    forall maxDepth: int, filter: Entry -> bool, e :: ListsOne(s, fs, q, maxDepth, filter, e)
  }

  ghost predicate ListsOne(s: FileCache, fs: Snapshot, q: Path, maxDepth: int, filter: Entry -> bool, e: Entry) {
    var levels := Min(maxDepth, DepthFor(s.registered, q));
    e in ListEntries(s, q, maxDepth, filter)
    <==> ListedNow(fs, q, levels, e) && (filter(e) || UnaskedIn(s, q, levels, e))
  }

  /** So listing any accepted path, to any depth, reports the file system again. */
  lemma SettledListing(s: FileCache, fs: Snapshot, events: seq<Delivery>, q: Path)
    requires AllStored(s, fs) && AllHandled(s, fs, events) && WrongReached(s, fs, events)
    requires AllRefreshed(s, fs, events)
    requires Covered(s) && |q| <= MAX_INT && Accepts(s.registered, q)
    ensures var s' := HandleAll(s, fs, events); s'.registered == s.registered && ListsFileSystem(s', fs, q)
  {
    var s' := HandleAll(s, fs, events);
    AcceptedFound(s, q);
    SettledListable(s, fs, events, q);
    ListableIsNow(s', fs, q);
  }

  lemma ListableIsNow(s: FileCache, fs: Snapshot, q: Path)
    requires Listable(s, fs, q) && |q| <= MAX_INT && Accepts(s.registered, q)
    ensures ListsFileSystem(s, fs, q)
  {
    forall maxDepth: int, filter: Entry -> bool, e
      ensures ListsOne(s, fs, q, maxDepth, filter, e)
    {
      ListIsNow(s, fs, q, maxDepth, filter, e);
    }
  }

  lemma AcceptedFound(s: FileCache, q: Path)
    requires Covered(s) && |q| <= MAX_INT && Accepts(s.registered, q)
    ensures FoundDeepEnough(s, q)
  {
    FindsDeepEnough(s);
  }

  lemma SettledListable(s: FileCache, fs: Snapshot, events: seq<Delivery>, q: Path)
    requires AllStored(s, fs) && AllHandled(s, fs, events) && WrongReached(s, fs, events)
    requires AllRefreshed(s, fs, events)
    requires FoundDeepEnough(s, q)
    ensures Listable(HandleAll(s, fs, events), fs, q) && HandleAll(s, fs, events).registered == s.registered
  {
    EventsSettle(s, fs, events);
    SettledFound(s, fs, events, q);
  }

  /** What listing the path needs. */
  ghost predicate Listable(s: FileCache, fs: Snapshot, q: Path) {
    && StateOk(s) && DepthsOk(s.registered) && DepthsOk(DepthsOf(s.directories))
    && EachMirrors(s, fs) && FoundDeepEnough(s, q)
  }

  /** The events change neither the registered depths nor those of the stored directories. */
  lemma SettledFound(s: FileCache, fs: Snapshot, events: seq<Delivery>, q: Path)
    requires AllStored(s, fs) && AllHandled(s, fs, events) && FoundDeepEnough(s, q)
    ensures var s' := HandleAll(s, fs, events);
            && StateOk(s') && DepthsOk(s'.registered) && DepthsOk(DepthsOf(s'.directories))
            && s'.registered == s.registered && FoundDeepEnough(s', q)
  {
    var s' := HandleAll(s, fs, events);
    HandledAll(s, fs, events);
    StoredOk(s', fs);
  }

  lemma StoredOk(s: FileCache, fs: Snapshot)
    requires AllStored(s, fs)
    ensures StateOk(s)
  {
    forall key | key in s.directories
      ensures Struct(s.directories[key], key)
    {
      assert Stored(s.directories[key], key, fs);
    }
  }
}
