/** Stored directories whose cached levels overlap: an event updates only one of them. */
module FileCacheOverlaps {
  import opened Wrappers
  import opened Entries
  import opened Snapshots
  import opened CacheTree
  import opened CacheInvariants
  import opened CacheListing
  import opened CacheDeliveries
  import opened CacheSettlesListing
  import opened DirectoryRegistries
  import opened FileCacheTree
  import opened FileCacheCoverage
  import opened FileCacheListing
  import opened FileCacheSettles

  /** No stored directory lies within the levels that another one caches. */
  predicate NoneOverlap(depths: Depths) {
    forall key, other | key in depths && other in depths && key < other :: !Within(depths[key], |other| - |key|)
  }

  /** `find` returns the only directory that can cache `x`. */
  predicate Alone(depths: Depths, x: Path) {
    forall key | key in depths && key < x && Within(depths[key], |x| - |key|) :: FindKey(depths, x) == Some(key)
  }

  lemma NoneOverlapAlone(depths: Depths, x: Path)
    requires NoneOverlap(depths)
    ensures Alone(depths, x)
  {
    forall key | key in depths && key < x && Within(depths[key], |x| - |key|)
      ensures FindKey(depths, x) == Some(key)
    {
      assert Reaches(depths[key], key, x);
      var found := FindKey(depths, x).value;
      assert key <= found <= x && !(key < found);
      assert found == x[..|found|] && key == x[..|key|];
    }
  }

  // ----- apart

  /** Every path that a stored directory has wrong is delivered. */
  ghost predicate WrongDelivered(s: FileCache, fs: Snapshot, events: seq<Delivery>) {
    forall key, rel | key in s.directories && NeedsEvent(s.directories[key], key, fs, rel) ::
      IsEvent(events, key + rel)
  }

  /** A path that is wrong lies within the depth limit. */
  lemma WrongWithin(c: Cached, key: Path, fs: Snapshot, rel: Path)
    requires Stored(c, key, fs) && NeedsEvent(c, key, fs, rel)
    ensures Within(c.depth, |rel|)
  {
    if At(c, rel).Some? { AtStruct(c, key, rel); }
  }

  /** When `find` returns the only directory that can cache a path, the event for it reaches all that need it. */
  lemma AloneReached(s: FileCache, fs: Snapshot, key: Path, rel: Path)
    requires EachStored(s, fs) && key in s.directories && NeedsEvent(s.directories[key], key, fs, rel)
    requires Alone(DepthsOf(s.directories), key + rel)
    ensures Reached(DepthsOf(s.directories), fs, key, key + rel)
  {
    assert Stored(s.directories[key], key, fs) && DepthsOf(s.directories)[key] == s.directories[key].depth;
    WrongWithin(s.directories[key], key, fs, rel);
    assert key in DepthsOf(s.directories) && key < key + rel;
  }

  lemma ApartReached(s: FileCache, fs: Snapshot, events: seq<Delivery>)
    requires EachStored(s, fs) && NoneOverlap(DepthsOf(s.directories)) && WrongDelivered(s, fs, events)
    ensures WrongReached(s, fs, events)
  {
    forall key, rel | key in s.directories && NeedsEvent(s.directories[key], key, fs, rel)
      ensures Reached(DepthsOf(s.directories), fs, key, key + rel)
    {
      NoneOverlapAlone(DepthsOf(s.directories), key + rel);
      AloneReached(s, fs, key, rel);
    }
  }

  // ----- overlapping

  /** The file system with another value at `x`. */
  function Before(fs: Snapshot, x: Path, value: Value): Snapshot {
    fs.(convert := q => if q == x then value else fs.convert(q))
  }

  /** The depths of directories that exist and can be read. */
  ghost predicate Readable(depths: Depths, fs: Snapshot) {
    DepthsOk(depths) && WellFormed(fs.root, []) && forall key <- depths :: ListDirectory(fs, key).Children?
  }

  /** Freshly registered directories of these depths; the one at `key` has another value at `x`. */
  function Misled(depths: Depths, fs: Snapshot, key: Path, x: Path, value: Value): FileCache {
    FileCache(depths, map k | k in depths ::
                        ScanOf(if k == key then Before(fs, x, value) else fs, k, depths[k], AllPass), {})
  }

  lemma BeforeMirrors(fs: Snapshot, key: Path, depth: int, x: Path, value: Value)
    requires WellFormed(fs.root, []) && ListDirectory(fs, key).Children? && |key| <= MAX_INT && depth <= MAX_INT
    ensures var c := ScanOf(Before(fs, x, value), key, depth, AllPass);
            Mirrors(c, key, Before(fs, x, value)) && c.depth == depth
  {
    ScanMirrors(Before(fs, x, value), key, depth, AllPass);
    ScanStruct(Before(fs, x, value), key, depth, AllPass);
  }

  /** A mirror of the file system as it was is stored, and wrong about `x` alone. */
  lemma WrongAlone(c: Cached, fs: Snapshot, key: Path, x: Path, value: Value)
    requires Mirrors(c, key, Before(fs, x, value)) && WellFormed(fs.root, []) && key != x
    ensures Stored(c, key, fs) && c.entry == OwnEntry(NodeAt(fs.root, key).value, key, fs)
    ensures forall rel :: !Flipped(c, key, fs, rel)
    ensures forall rel | NeedsEvent(c, key, fs, rel) :: key + rel == x
  {
    var before, node := Before(fs, x, value), NodeAt(fs.root, key).value;
    CleanTidy(c, node);
    RightUnflipped(c, key, node, before.convert);
    forall rel | NeedsEvent(c, key, fs, rel)
      ensures key + rel == x
    {
      assert Right(c, node, key, before.convert, rel);
    }
  }

  /** A scan of the file system as it was is stored, and wrong about `x` alone. */
  lemma BeforeStored(fs: Snapshot, key: Path, depth: int, x: Path, value: Value)
    requires WellFormed(fs.root, []) && ListDirectory(fs, key).Children? && |key| <= MAX_INT && depth <= MAX_INT
    requires key != x
    ensures var c := ScanOf(Before(fs, x, value), key, depth, AllPass);
            && Stored(c, key, fs) && c.depth == depth && c.entry == OwnEntry(NodeAt(fs.root, key).value, key, fs)
            && (forall rel :: !Flipped(c, key, fs, rel))
            && (forall rel | NeedsEvent(c, key, fs, rel) :: key + rel == x)
  {
    BeforeMirrors(fs, key, depth, x, value);
    WrongAlone(ScanOf(Before(fs, x, value), key, depth, AllPass), fs, key, x, value);
  }

  lemma BeforeWrong(fs: Snapshot, key: Path, depth: int, rel: Path, value: Value)
    requires WellFormed(fs.root, []) && ListDirectory(fs, key).Children? && |key| <= MAX_INT && depth <= MAX_INT
    requires rel != [] && NodeAt(fs.root, key + rel).Some? && Within(depth, |rel|) && value != fs.convert(key + rel)
    ensures NeedsEvent(ScanOf(Before(fs, key + rel, value), key, depth, AllPass), key, fs, rel)
  {
    BeforeStored(fs, key, depth, key + rel, value);
    BeforeMirrors(fs, key, depth, key + rel, value);
    OldValueWrong(ScanOf(Before(fs, key + rel, value), key, depth, AllPass), fs, key, rel, value);
  }

  /** What mirrors the file system with another value at a path is wrong about it. */
  lemma OldValueWrong(c: Cached, fs: Snapshot, key: Path, rel: Path, value: Value)
    requires Mirrors(c, key, Before(fs, key + rel, value)) && !Flipped(c, key, fs, rel)
    requires rel != [] && NodeAt(fs.root, key + rel).Some? && Within(c.depth, |rel|) && value != fs.convert(key + rel)
    ensures NeedsEvent(c, key, fs, rel)
  {
    NodeAtSplit(fs.root, key, rel);
    assert Right(c, NodeAt(fs.root, key).value, key, Before(fs, key + rel, value).convert, rel);
  }

  lemma MisledStored(depths: Depths, fs: Snapshot, key: Path, x: Path, value: Value)
    requires Readable(depths, fs) && key in depths && key < x
    ensures var s := Misled(depths, fs, key, x, value);
            && DepthsOf(s.directories) == depths && AllStored(s, fs)
            && forall k <- depths :: MisledOne(s, fs, k, x)
  {
    var s := Misled(depths, fs, key, x, value);
    forall k | k in depths
      ensures Stored(s.directories[k], k, fs) && s.directories[k].depth == depths[k] && MisledOne(s, fs, k, x)
    {
      MisledEach(depths, fs, key, x, value, k);
    }
    assert DepthsOf(s.directories) == depths;
    RegisteredStored(s, fs);
  }

  lemma MisledEach(depths: Depths, fs: Snapshot, key: Path, x: Path, value: Value, k: Path)
    requires Readable(depths, fs) && key in depths && key < x && k in depths
    ensures var s := Misled(depths, fs, key, x, value);
            Stored(s.directories[k], k, fs) && s.directories[k].depth == depths[k] && MisledOne(s, fs, k, x)
  {
    if k == key {
      BeforeStored(fs, k, depths[k], x, value);
    } else {
      ScanStored(fs, k, depths[k]);
    }
  }

  /** Directories of the depths that are registered. */
  lemma RegisteredStored(s: FileCache, fs: Snapshot)
    requires DepthsOk(s.registered) && DepthsOf(s.directories) == s.registered && s.pending == {} && EachStored(s, fs)
    ensures AllStored(s, fs)
  {
    forall key | key in s.directories
      ensures LeavesDepth(s.registered, key, s.directories[key].depth)
    {
      assert key in DepthsOf(s.directories);
      OwnDepth(s.registered, key);
    }
  }

  /** The path below the directory. */
  lemma RelativeTo(key: Path, x: Path)
    requires key < x
    ensures x[|key|..] != [] && key + x[|key|..] == x
  {
  }

  /** It has nothing but `x` wrong. */
  ghost predicate MisledOne(s: FileCache, fs: Snapshot, k: Path, x: Path) {
    && k in s.directories && (forall rel :: !Flipped(s.directories[k], k, fs, rel))
    && OwnReached(s.directories[k], k, fs, [])
    && forall rel | NeedsEvent(s.directories[k], k, fs, rel) :: k + rel == x
  }

  lemma ScanStored(fs: Snapshot, key: Path, depth: int)
    requires WellFormed(fs.root, []) && ListDirectory(fs, key).Children? && |key| <= MAX_INT && depth <= MAX_INT
    ensures var c := ScanOf(fs, key, depth, AllPass);
            && Stored(c, key, fs) && c.depth == depth && c.entry == OwnEntry(NodeAt(fs.root, key).value, key, fs)
            && (forall rel :: !Flipped(c, key, fs, rel) && !NeedsEvent(c, key, fs, rel))
  {
    var node, c := NodeAt(fs.root, key).value, ScanOf(fs, key, depth, AllPass);
    ScanMirrors(fs, key, depth, AllPass);
    CleanTidy(c, node);
    RightUnflipped(c, key, node, fs.convert);
    forall rel
      ensures !NeedsEvent(c, key, fs, rel)
    {
      assert rel != [] ==> Right(c, node, key, fs.convert, rel);
    }
  }

  /** Every path that is wrong is delivered; what has flipped is rescanned from above, and the own entries are
      right or delivered. */
  ghost predicate AllDelivered(s: FileCache, fs: Snapshot, events: seq<Delivery>) {
    && AllStored(s, fs) && AllHandled(s, fs, events) && WrongDelivered(s, fs, events)
    && AllRefreshed(s, fs, events)
  }

  /** All the same some directory stays wrong. */
  ghost predicate LeftWrong(s: FileCache, fs: Snapshot, events: seq<Delivery>) {
    AllDelivered(s, fs, events) && !WrongReached(s, fs, events) && !AllMirror(HandleAll(s, fs, events), fs)
  }

  /** The path `x` is all that such a state has wrong, and only the directory at `key` has it wrong. */
  lemma Mislead(depths: Depths, fs: Snapshot, key: Path, x: Path, value: Value) returns (s: FileCache)
    requires Readable(depths, fs) && key in depths && key < x && Within(depths[key], |x| - |key|)
    requires NodeAt(fs.root, x).Some? && value != fs.convert(x)
    ensures DepthsOf(s.directories) == depths == s.registered && AllStored(s, fs)
    ensures forall k <- depths :: MisledOne(s, fs, k, x)
    ensures key in s.directories && NeedsEvent(s.directories[key], key, fs, x[|key|..])
  {
    s := Misled(depths, fs, key, x, value);
    RelativeTo(key, x);
    MisledStored(depths, fs, key, x, value);
    BeforeWrong(fs, key, depths[key], x[|key|..], value);
  }

  /** Whenever another directory can cache an existing path than the one that `find` returns, there is a state
      with these depths, all of whose wrong paths are delivered, that stays wrong. */
  lemma OverlapMissed(depths: Depths, fs: Snapshot, key: Path, x: Path, value: Value, rescan: bool)
    returns (s: FileCache)
    requires Readable(depths, fs) && key in depths && key < x && Within(depths[key], |x| - |key|)
    requires FindKey(depths, x) != Some(key) && NodeAt(fs.root, x).Some? && value != fs.convert(x)
    ensures DepthsOf(s.directories) == depths && LeftWrong(s, fs, [(x, rescan)])
  {
    s := Mislead(depths, fs, key, x, value);
    ExistsHandled(depths, fs, key, x, rescan);
    MisledLeftWrong(s, fs, key, x, rescan);
  }

  lemma MisledLeftWrong(s: FileCache, fs: Snapshot, key: Path, x: Path, rescan: bool)
    requires AllStored(s, fs) && Handled(s.registered, DepthsOf(s.directories), fs, (x, rescan))
    requires forall k <- DepthsOf(s.directories) :: MisledOne(s, fs, k, x)
    requires key in s.directories && key < x && NeedsEvent(s.directories[key], key, fs, x[|key|..])
    requires NodeAt(fs.root, x).Some? && FindKey(DepthsOf(s.directories), x) != Some(key)
    ensures LeftWrong(s, fs, [(x, rescan)])
  {
    HandledOnly(s, fs, (x, rescan));
    MisledDelivered(s, fs, x, rescan);
    MisledStays(s, fs, key, x, rescan);
  }

  lemma HandledOnly(s: FileCache, fs: Snapshot, event: Delivery)
    requires Handled(s.registered, DepthsOf(s.directories), fs, event)
    ensures AllHandled(s, fs, [event])
  {
  }

  lemma MisledStays(s: FileCache, fs: Snapshot, key: Path, x: Path, rescan: bool)
    requires AllStored(s, fs) && AllHandled(s, fs, [(x, rescan)]) && key in s.directories && key < x
    requires NeedsEvent(s.directories[key], key, fs, x[|key|..])
    requires NodeAt(fs.root, x).Some? && FindKey(DepthsOf(s.directories), x) != Some(key)
    ensures !WrongReached(s, fs, [(x, rescan)]) && !AllMirror(HandleAll(s, fs, [(x, rescan)]), fs)
  {
    StaysMisled(s, fs, key, x, rescan);
  }

  lemma ExistsHandled(depths: Depths, fs: Snapshot, key: Path, x: Path, rescan: bool)
    requires Readable(depths, fs) && key in depths && key < x && Within(depths[key], |x| - |key|)
    requires NodeAt(fs.root, x).Some?
    ensures Handled(depths, depths, fs, (x, rescan))
  {
    FromSnapshot(fs.root, [], x);
    assert [] + x == x;
    assert Reaches(depths[key], key, x);
  }

  lemma MisledDelivered(s: FileCache, fs: Snapshot, x: Path, rescan: bool)
    requires forall k <- DepthsOf(s.directories) :: MisledOne(s, fs, k, x)
    ensures WrongDelivered(s, fs, [(x, rescan)]) && AllRefreshed(s, fs, [(x, rescan)])
  {
    var events := [(x, rescan)];
    assert events[0].0 == x;
    forall key, rel | key in s.directories && NeedsEvent(s.directories[key], key, fs, rel)
      ensures IsEvent(events, key + rel)
    {
      assert key in DepthsOf(s.directories) && MisledOne(s, fs, key, x);
    }
    forall key | key in s.directories
      ensures FlipsReached(s.directories[key], key, DepthsOf(s.directories), fs, events)
      ensures OwnReached(s.directories[key], key, fs, events)
    {
      assert key in DepthsOf(s.directories) && MisledOne(s, fs, key, x);
    }
  }

  /** A directory that the event does not reach stays as it is. */
  lemma StaysMisled(s: FileCache, fs: Snapshot, key: Path, x: Path, rescan: bool)
    requires AllStored(s, fs) && AllHandled(s, fs, [(x, rescan)]) && key in s.directories && key < x
    requires NeedsEvent(s.directories[key], key, fs, x[|key|..]) && !Reached(DepthsOf(s.directories), fs, key, x)
    ensures !WrongReached(s, fs, [(x, rescan)]) && !AllMirror(HandleAll(s, fs, [(x, rescan)]), fs)
  {
    RelativeTo(key, x);
    NotRefreshed(DepthsOf(s.directories), fs, key, x, rescan);
    NotReached(s, fs, key, x[|key|..], [(x, rescan)]);
    NotReachedSame(s, fs, (x, rescan), key);
    StillWrong(HandleAll(s, fs, [(x, rescan)]), fs, key, x[|key|..]);
  }

  lemma NotRefreshed(depths: Depths, fs: Snapshot, key: Path, x: Path, rescan: bool)
    requires key < x
    ensures !RefreshReaches(depths, fs, key, [(x, rescan)], x[|key|..])
  {
  }

  lemma NotReached(s: FileCache, fs: Snapshot, key: Path, rel: Path, events: seq<Delivery>)
    requires key in s.directories && NeedsEvent(s.directories[key], key, fs, rel)
    requires !Reached(DepthsOf(s.directories), fs, key, key + rel)
    requires !RefreshReaches(DepthsOf(s.directories), fs, key, events, rel)
    ensures !WrongReached(s, fs, events)
  {
  }

  lemma NotReachedSame(s: FileCache, fs: Snapshot, event: Delivery, key: Path)
    requires AllStored(s, fs) && AllHandled(s, fs, [event]) && key in s.directories
    requires !Reached(DepthsOf(s.directories), fs, key, event.0)
    ensures var s' := HandleAll(s, fs, [event]);
            key in s'.directories && s'.directories[key] == s.directories[key]
  {
    DirectoriesAfter(s, fs, [event], key);
    NotForIt(DepthsOf(s.directories), fs, key, event);
  }

  lemma NotForIt(depths: Depths, fs: Snapshot, key: Path, event: Delivery)
    requires !Reached(depths, fs, key, event.0)
    ensures EventsFor(depths, fs, key, [event]) == []
  {
  }

  lemma StillWrong(s: FileCache, fs: Snapshot, key: Path, rel: Path)
    requires key in s.directories && NeedsEvent(s.directories[key], key, fs, rel)
    ensures !AllMirror(s, fs)
  {
    assert EachMirrors(s, fs) ==> Mirrors(s.directories[key], key, fs);
  }

  // ----- exactly

  /** With these depths, every stored directory mirrors the file system after events for all that is wrong,
      whatever the directories hold. */
  ghost predicate AlwaysSettles(depths: Depths, fs: Snapshot) {
    forall s: FileCache, events: seq<Delivery> | AllDelivered(s, fs, events) && DepthsOf(s.directories) == depths ::
      AllMirror(HandleAll(s, fs, events), fs)
  }

  /** It is enough that every path that differs is delivered, and what has flipped rescanned, if and only if no
      stored directory lies within the levels that another one caches. `other` is a converter that differs
      everywhere. */
  lemma SettlesExactly(depths: Depths, fs: Snapshot, other: Path -> Value)
    requires Readable(depths, fs) && forall q :: other(q) != fs.convert(q)
    ensures AlwaysSettles(depths, fs) <==> NoneOverlap(depths)
  {
    if NoneOverlap(depths) {
      forall s: FileCache, events: seq<Delivery> | AllDelivered(s, fs, events) && DepthsOf(s.directories) == depths
        ensures AllMirror(HandleAll(s, fs, events), fs)
      {
        ApartSettles(s, fs, events);
      }
    } else {
      var key, x :| key in depths && x in depths && key < x && Within(depths[key], |x| - |key|);
      OwnFound(depths, x);
      var s := OverlapMissed(depths, fs, key, x, other(x), false);
      LeftWrongUnsettled(s, fs, [(x, false)]);
    }
  }

  lemma ApartSettles(s: FileCache, fs: Snapshot, events: seq<Delivery>)
    requires AllDelivered(s, fs, events) && NoneOverlap(DepthsOf(s.directories))
    ensures AllMirror(HandleAll(s, fs, events), fs)
  {
    ApartReached(s, fs, events);
    EventsSettle(s, fs, events);
  }

  lemma LeftWrongUnsettled(s: FileCache, fs: Snapshot, events: seq<Delivery>)
    requires LeftWrong(s, fs, events)
    ensures !AlwaysSettles(DepthsOf(s.directories), fs)
  {
  }

  /** The stored directory is right about a path below it, or holds a directory there that has become
      something else. */
  ghost predicate RightAbout(s: FileCache, fs: Snapshot, key: Path, x: Path)
    requires key in s.directories
  {
    key < x ==> !NeedsEvent(s.directories[key], key, fs, x[|key|..])
  }

  /** With these depths, the event makes every stored directory right about its path. */
  ghost predicate AlwaysRight(depths: Depths, fs: Snapshot, event: Delivery) {
    forall s: FileCache |
      AllStored(s, fs) && DepthsOf(s.directories) == depths && Handled(s.registered, depths, fs, event) ::
      EachRightAbout(HandleOne(s, fs, event), fs, event.0)
  }

  ghost predicate EachRightAbout(s: FileCache, fs: Snapshot, x: Path) {
    forall key <- s.directories :: RightAbout(s, fs, key, x)
  }

  /** The event for an existing path makes every stored directory right about it, whatever they held, if and
      only if `find` returns the only one that can cache it. */
  lemma EventSettlesPath(depths: Depths, fs: Snapshot, event: Delivery, value: Value)
    requires Readable(depths, fs) && NodeAt(fs.root, event.0).Some? && value != fs.convert(event.0)
    ensures AlwaysRight(depths, fs, event) <==> Alone(depths, event.0)
  {
    if Alone(depths, event.0) {
      forall s: FileCache |
        AllStored(s, fs) && DepthsOf(s.directories) == depths && Handled(s.registered, depths, fs, event)
        ensures EachRightAbout(HandleOne(s, fs, event), fs, event.0)
      {
        AloneRight(s, fs, event);
      }
    } else {
      var key :| key in depths && key < event.0 && Within(depths[key], |event.0| - |key|)
                 && FindKey(depths, event.0) != Some(key);
      MisledNotRight(depths, fs, event, value, key);
    }
  }

  lemma AloneRight(s: FileCache, fs: Snapshot, event: Delivery)
    requires AllStored(s, fs) && Handled(s.registered, DepthsOf(s.directories), fs, event)
    requires Alone(DepthsOf(s.directories), event.0)
    ensures EachRightAbout(HandleOne(s, fs, event), fs, event.0)
  {
    var s' := HandleOne(s, fs, event);
    EventStep(s, fs, event);
    forall key | key in s'.directories
      ensures RightAbout(s', fs, key, event.0)
    {
      if key < event.0 {
        AloneRightOne(s, s', fs, event, key);
      }
    }
  }

  lemma AloneRightOne(s: FileCache, s': FileCache, fs: Snapshot, event: Delivery, key: Path)
    requires EachStored(s, fs) && EachAfter(s, s', fs, event) && key in s.directories && key < event.0
    requires Alone(DepthsOf(s.directories), event.0)
    ensures key in s'.directories && !NeedsEvent(s'.directories[key], key, fs, event.0[|key|..])
  {
    var c, rel := s.directories[key], event.0[|key|..];
    RelativeTo(key, event.0);
    assert Stored(c, key, fs) && OneAfter(s, s', fs, event, key);
    if Reached(DepthsOf(s.directories), fs, key, event.0) {
      DeliveredRight(c, key, fs, event);
    } else if NeedsEvent(c, key, fs, rel) {
      AloneReached(s, fs, key, rel);
    }
  }

  lemma DeliveredRight(c: Cached, key: Path, fs: Snapshot, event: Delivery)
    requires Stored(c, key, fs) && key < event.0
    ensures !NeedsEvent(Update(c, Reading(fs, event.0), event.1, AllPass, fs).tree, key, fs, event.0[|key|..])
  {
    var node, rel := NodeAt(fs.root, key).value, event.0[|key|..];
    DeliverOne(c, key, node, fs, event.0, event.1);
    assert Outcome(c, Update(c, Reading(fs, event.0), event.1, AllPass, fs).tree, key, node, fs.convert, rel,
                   event.1, rel);
  }

  lemma MisledNotRight(depths: Depths, fs: Snapshot, event: Delivery, value: Value, key: Path)
    requires Readable(depths, fs) && NodeAt(fs.root, event.0).Some? && value != fs.convert(event.0)
    requires key in depths && key < event.0 && Within(depths[key], |event.0| - |key|)
    requires FindKey(depths, event.0) != Some(key)
    ensures !AlwaysRight(depths, fs, event)
  {
    var s := Mislead(depths, fs, key, event.0, value);
    ExistsHandled(depths, fs, key, event.0, event.1);
    LeftNotRight(s, fs, event, key);
  }

  lemma LeftNotRight(s: FileCache, fs: Snapshot, event: Delivery, key: Path)
    requires AllStored(s, fs) && Handled(s.registered, DepthsOf(s.directories), fs, event)
    requires key in s.directories && key < event.0 && NeedsEvent(s.directories[key], key, fs, event.0[|key|..])
    requires NodeAt(fs.root, event.0).Some? && FindKey(DepthsOf(s.directories), event.0) != Some(key)
    ensures !AlwaysRight(DepthsOf(s.directories), fs, event)
  {
    EventStep(s, fs, event);
    var s' := HandleOne(s, fs, event);
    assert OneAfter(s, s', fs, event, key);
    assert s'.directories[key] == s.directories[key] && !RightAbout(s', fs, key, event.0);
    assert !EachRightAbout(s', fs, event.0);
  }

  // ----- the input

  /** An event leaves the directories that `find` does not return as they are. */
  lemma EventMisses(s: FileCache, fs: Snapshot, tp: TypedPath, rescan: bool, filter: TypedPath -> bool, key: Path)
    requires StateOk(s) && tp.present && key in s.directories && tp.path.names !in s.directories
    requires FindKey(DepthsOf(s.directories), tp.path.names).Some?
    requires FindKey(DepthsOf(s.directories), tp.path.names) != Some(key)
    ensures var s' := HandleEvent(s, tp, rescan, filter, fs).0;
            key in s'.directories && s'.directories[key] == s.directories[key]
  {
    var other := FindKey(DepthsOf(s.directories), tp.path.names).value;
    assert other != tp.path.names;
  }

  /** A path that a stored directory lacks is in none of its listings. */
  lemma StaysUnlisted(s: FileCache, key: Path, x: Path, maxDepth: int, e: Entry)
    requires key in s.directories && Struct(s.directories[key], key) && Clean(s.directories[key])
    requires s.directories[key].depth >= 0 && key < x && PathOf(e) == x && Look(s.directories[key], x).None?
    ensures e !in ListEntries(s, key, maxDepth, EveryEntry)
  {
    var c := s.directories[key];
    OwnFound(DepthsOf(s.directories), key);
    var levels := Min(DepthFor(s.registered, key), maxDepth);
    assert key[|key|..] == [] && Look(c, key) == Some(c.entry);
    if levels >= 0 {
      ListSetReports(c, key, levels, EveryEntry, e);
    }
  }

  /** The input: a directory is registered to depth 2 and a child of it to depth 5, so that both are stored.
      Then a path appears in the child. Its event updates the child alone, and listing the parent does not
      report it, although it exists within the depth that is registered. */
  lemma NestedStaysStale(a: Name, b: Name, x: Name, before: Snapshot, after: Snapshot, rescan: bool)
    requires Proper([a, b, x]) && WellFormed(before.root, []) && WellFormed(after.root, [])
    requires ListDirectory(before, [a]).Children? && ListDirectory(before, [a, b]).Children?
    requires NodeAt(before.root, [a, b, x]).None?
    requires NodeAt(after.root, [a]).Some? && NodeAt(after.root, [a]).value.Folder?
    requires NodeAt(after.root, [a, b, x]).Some?
    ensures var s1 := Register(FileCache(map[], map[], {}), [a], 2, true, AllPass, before).0;
            && StateOk(s1)
            && var s2 := Register(s1, [a, b], 5, true, AllPass, before).0;
            && StateOk(s2)
            && var s3 := HandleEvent(s2, Reading(after, [a, b, x]), rescan, AllPass, after).0;
            && var e := Exactly(after, [a, b, x]);
            && e !in ListEntries(s3, [a], 2, EveryEntry)
            && DepthFor(s3.registered, [a]) >= 2 && ListedNow(after, [a], 2, e)
  {
    var s0 := FileCache(map[], map[], {});
    assert a in [a, b, x] && b in [a, b, x] && Proper([a]) && Proper([a, b]);
    NestedFirst(a, before);
    var s1 := Register(s0, [a], 2, true, AllPass, before).0;
    NestedSecond(s1, a, b, before);
    var s2 := Register(s1, [a, b], 5, true, AllPass, before).0;
    NestedEvent(s2, a, b, x, before, after, rescan);
  }

  ghost predicate FirstStored(s: FileCache, a: Name, fs: Snapshot) {
    && StateOk(s) && s.registered == map[[a] := 2] && DepthsOf(s.directories) == map[[a] := 2]
    && EachMirrors(s, fs)
  }

  ghost predicate BothStored(s: FileCache, a: Name, b: Name, fs: Snapshot) {
    && StateOk(s) && s.registered == map[[a] := 2, [a, b] := 5]
    && DepthsOf(s.directories) == map[[a] := 2, [a, b] := 5] && EachMirrors(s, fs)
  }

  lemma NestedFirst(a: Name, fs: Snapshot)
    requires a != NoName && WellFormed(fs.root, []) && ListDirectory(fs, [a]).Children?
    ensures FirstStored(Register(FileCache(map[], map[], {}), [a], 2, true, AllPass, fs).0, a, fs)
  {
    var s0, s := FileCache(map[], map[], {}), FileCache(map[[a] := 2], map[], {});
    assert DepthsOf(map[]) == map[] && ExistingFor(DepthsOf(s0.directories), [a], 2).None?;
    assert s0.(registered := s0.registered[[a] := 2]) == s;
    FirstNew(s, a, fs);
  }

  lemma FirstNew(s: FileCache, a: Name, fs: Snapshot)
    requires s == FileCache(map[[a] := 2], map[], {})
    requires a != NoName && WellFormed(fs.root, []) && ListDirectory(fs, [a]).Children?
    ensures FirstStored(RegisterNew(s, [a], 2, AllPass, fs).0, a, fs)
  {
    var call := Registration([a], 2, fs);
    NewStep(s, call, AllPass);
    OwnDepth(s.registered, call.path);
    RegisteredWithin(s.registered, call.path, call.maxDepth);
    NewEachMirrors(s, call, fs);
    OneCleaned(map[], [a], 2);
    assert DepthsOf(s.directories) == map[];
  }

  /** Nothing stored lies below a path that is registered. */
  lemma OneCleaned(depths: Depths, path: Path, maxDepth: int)
    requires forall key <- depths :: !(path < key)
    ensures CleanDepths(depths[path := maxDepth], path, maxDepth) == depths[path := maxDepth]
  {
  }

  lemma ShallowerAbove(a: Name, b: Name)
    ensures ExistingFor(map[[a] := 2], [a, b], 5).None?
  {
    ExceedsMeans(2, [a], [a, b], 5);
  }

  lemma NestedSecond(s: FileCache, a: Name, b: Name, fs: Snapshot)
    requires FirstStored(s, a, fs) && Proper([a, b]) && WellFormed(fs.root, [])
    requires ListDirectory(fs, [a, b]).Children?
    ensures BothStored(Register(s, [a, b], 5, true, AllPass, fs).0, a, b, fs)
  {
    var s1 := s.(registered := s.registered[[a, b] := 5]);
    ShallowerAbove(a, b);
    IsNew(s, [a, b], 5, fs);
    SecondNew(s1, a, b, fs);
  }

  lemma IsNew(s: FileCache, path: Path, maxDepth: int, fs: Snapshot)
    requires StateOk(s) && Adds(s.registered, path, maxDepth)
    requires ExistingFor(DepthsOf(s.directories), path, maxDepth).None?
    ensures Register(s, path, maxDepth, true, AllPass, fs)
         == RegisterNew(s.(registered := s.registered[path := maxDepth]), path, maxDepth, AllPass, fs)
  {
  }

  lemma SecondNew(s: FileCache, a: Name, b: Name, fs: Snapshot)
    requires StateOk(s) && s.registered == map[[a] := 2, [a, b] := 5] && DepthsOf(s.directories) == map[[a] := 2]
    requires EachMirrors(s, fs) && Proper([a, b]) && WellFormed(fs.root, []) && ListDirectory(fs, [a, b]).Children?
    ensures BothStored(RegisterNew(s, [a, b], 5, AllPass, fs).0, a, b, fs)
  {
    var call := Registration([a, b], 5, fs);
    NewStep(s, call, AllPass);
    OwnDepth(s.registered, call.path);
    RegisteredWithin(s.registered, call.path, call.maxDepth);
    NewEachMirrors(s, call, fs);
    OneCleaned(map[[a] := 2], [a, b], 5);
  }

  lemma NestedEvent(s: FileCache, a: Name, b: Name, x: Name, before: Snapshot, after: Snapshot, rescan: bool)
    requires BothStored(s, a, b, before) && Proper([a, b, x]) && WellFormed(after.root, [])
    requires NodeAt(before.root, [a, b, x]).None?
    requires NodeAt(after.root, [a]).Some? && NodeAt(after.root, [a]).value.Folder?
    requires NodeAt(after.root, [a, b, x]).Some?
    ensures var s' := HandleEvent(s, Reading(after, [a, b, x]), rescan, AllPass, after).0;
            var e := Exactly(after, [a, b, x]);
            && e !in ListEntries(s', [a], 2, EveryEntry)
            && DepthFor(s'.registered, [a]) >= 2 && ListedNow(after, [a], 2, e)
  {
    var q, e := [a, b, x], Exactly(after, [a, b, x]);
    var s' := HandleEvent(s, Reading(after, q), rescan, AllPass, after).0;
    NestedMissed(s, a, b, x, before, after, rescan);
    StaysUnlisted(s', [a], q, 2, e);
    NestedDepth(a, b);
    assert Below([a], 3, q);
  }

  lemma NestedDepth(a: Name, b: Name)
    ensures DepthFor(map[[a] := 2, [a, b] := 5], [a]) >= 2
  {
    var reg := map[[a] := 2, [a, b] := 5];
    assert [a] in reg && Remaining(reg[[a]], [a], [a]) == 2;
  }

  /** The event for the new path leaves the parent as it is. */
  lemma NestedMissed(s: FileCache, a: Name, b: Name, x: Name, before: Snapshot, after: Snapshot, rescan: bool)
    requires BothStored(s, a, b, before) && Proper([a, b, x]) && WellFormed(after.root, [])
    requires NodeAt(before.root, [a, b, x]).None? && NodeAt(after.root, [a, b, x]).Some?
    ensures var s' := HandleEvent(s, Reading(after, [a, b, x]), rescan, AllPass, after).0;
            && s'.registered == s.registered && NestedParent(s', a, [a, b, x])
  {
    var q, depths := [a, b, x], DepthsOf(s.directories);
    NestedFinds(a, b, x);
    assert q !in depths && [a] in depths;
    EventMisses(s, after, Reading(after, q), rescan, AllPass, [a]);
    EventKeepsRegistered(s, after, Reading(after, q), rescan, AllPass);
    ParentLacks(s, a, b, before, q);
  }

  /** The parent is stored and lacks the path. */
  ghost predicate NestedParent(s: FileCache, a: Name, q: Path) {
    && [a] in s.directories && Struct(s.directories[[a]], [a]) && Clean(s.directories[[a]])
    && s.directories[[a]].depth == 2 && Look(s.directories[[a]], q).None?
  }

  lemma ParentLacks(s: FileCache, a: Name, b: Name, fs: Snapshot, q: Path)
    requires BothStored(s, a, b, fs) && NodeAt(fs.root, q).None? && [a] <= q && |q| == 3
    ensures NestedParent(s, a, q)
  {
    assert [a] in DepthsOf(s.directories);
    var c := s.directories[[a]];
    assert DepthsOf(s.directories)[[a]] == c.depth && Mirrors(c, [a], fs);
    LookMirror(c, [a], fs, q);
  }

  lemma NestedFinds(a: Name, b: Name, x: Name)
    ensures FindKey(map[[a] := 2, [a, b] := 5], [a, b, x]).Some?
    ensures FindKey(map[[a] := 2, [a, b] := 5], [a, b, x]) != Some([a])
  {
    var depths := map[[a] := 2, [a, b] := 5];
    assert [a, b] in depths && Reaches(5, [a, b], [a, b, x]);
    assert [a, b] <= FindKey(depths, [a, b, x]).value;
  }

  lemma EventKeepsRegistered(s: FileCache, fs: Snapshot, tp: TypedPath, rescan: bool, filter: TypedPath -> bool)
    requires StateOk(s)
    ensures HandleEvent(s, tp, rescan, filter, fs).0.registered == s.registered
  {
  }
}
