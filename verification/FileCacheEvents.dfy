/** The callbacks of one file event tell an observer how the cached directories changed. */
module FileCacheEvents {
  import opened Wrappers
  import opened Entries
  import opened Snapshots
  import opened CacheTree
  import opened CacheInvariants
  import opened CacheListing
  import opened CacheUpdates
  import opened CacheRemove
  import opened Replays
  import CacheRuns
  import opened DirectoryRegistries
  import opened FileCacheTree
  import opened FileCacheRemembers
  import opened Callbacks

  /** An event for a path that `find` has a directory for: replaying the callbacks, in whatever order
      they run, on what that directory held gives what it holds now, if and only if the guard of the
      update holds. No other directory changes. */
  lemma UpdateIsTold(s: FileCache, tp: TypedPath, rescan: bool, filter: TypedPath -> bool, fs: Snapshot, key: Path,
                     callbacks: seq<Event>)
    requires StateOk(s) && ValidAction(EventAction(tp, rescan, fs)) && tp.present
    requires FindKey(DepthsOf(s.directories), tp.path.names) == Some(key) && Clean(s.directories[key])
    requires Update(s.directories[key], UpdatePath(tp), rescan, CacheFilter(filter, s.registered), fs).Updated?
    requires Records(callbacks, HandleEvent(s, tp, rescan, filter, fs).1)
    ensures var s' := HandleEvent(s, tp, rescan, filter, fs).0;
            && key in s'.directories && s'.directories == s.directories[key := s'.directories[key]]
            && (Replay(Flat(s.directories[key]), callbacks).Values == AllEntries(s'.directories[key])
                <==> CacheRuns.UpdateGuard(s.directories[key], UpdatePath(tp), rescan,
                                           CacheFilter(filter, s.registered), fs))
  {
    var dir, accept := s.directories[key], CacheFilter(filter, s.registered);
    UpdateStores(s, tp, rescan, filter, fs, key);
    CacheRuns.UpdateIsCoherent(dir, key, UpdatePath(tp), rescan, accept, fs, callbacks);
  }

  lemma UpdateStores(s: FileCache, tp: TypedPath, rescan: bool, filter: TypedPath -> bool, fs: Snapshot, key: Path)
    requires StateOk(s) && tp.present && FindKey(DepthsOf(s.directories), tp.path.names) == Some(key)
    requires Update(s.directories[key], UpdatePath(tp), rescan, CacheFilter(filter, s.registered), fs).Updated?
    ensures var r := Update(s.directories[key], UpdatePath(tp), rescan, CacheFilter(filter, s.registered), fs);
            HandleEvent(s, tp, rescan, filter, fs) == (s.(directories := s.directories[key := r.tree]), r.changes)
  {
  }

  /** What a deletion takes from one directory lies at or below the deleted path. */
  lemma LostBelow(dir: Cached, key: Path, path: Path, e: Entry)
    requires Struct(dir, key) && Clean(dir) && key <= path
    ensures e in Lost(dir, key, path) ==> path <= PathOf(e)
  {
    if key == path {
      RemoveSelf(dir, key);
      AllEntriesFlat(dir, key, e);
    } else {
      RemoveIsExact(dir, key, path);
      RemoveFound(dir, key, path);
    }
  }

  /** Everything a directory holds at or below the deleted path is taken from it. */
  lemma LostAll(dir: Cached, key: Path, path: Path, q: Path)
    requires Struct(dir, key) && Clean(dir) && key <= path <= q && Look(dir, q).Some?
    ensures exists e :: e in Lost(dir, key, path) && PathOf(e) == q
  {
    LookKeyed(dir, key, q);
    if key == path {
      AllEntriesFlat(dir, key, Look(dir, q).value);
      assert Look(dir, q).value in Lost(dir, key, path);
    } else {
      RemoveIsExact(dir, key, path);
      RemoveFound(dir, key, path);
      assert SetExists(Look(dir, q).value, false) in Lost(dir, key, path);
    }
  }

  /** What a directory at or above the deleted path is afterwards. */
  function Left(dir: Cached, key: Path, path: Path): map<Path, Entry>
    requires key <= path
  {
    if key == path then map[] else Flat(Remove(dir, path).0)
  }

  lemma LeftLook(dir: Cached, key: Path, path: Path, q: Path)
    requires Struct(dir, key) && Clean(dir) && key <= path
    ensures Lookup(Left(dir, key, path), q) == if path <= q then None else Lookup(Flat(dir), q)
  {
    FlatLook(dir, q);
    if key != path {
      RemoveIsExact(dir, key, path);
      RemoveFound(dir, key, path);
      FlatLook(Remove(dir, path).0, q);
    }
  }

  /** A deletion: replaying its callbacks on what any directory at or above the path held gives what
      that directory holds now; one stored under the path itself is gone. */
  lemma DeleteIsTold(s: FileCache, path: Path, key: Path, callbacks: seq<Event>)
    requires StateOk(s) && (forall k <- s.directories :: Clean(s.directories[k]))
    requires key in s.directories && key <= path
    requires Records(callbacks, HandleDelete(s, path).1)
    ensures var s' := HandleDelete(s, path).0;
            if key == path then key !in s'.directories && Replay(Flat(s.directories[key]), callbacks) == map[]
            else key in s'.directories && Replay(Flat(s.directories[key]), callbacks) == Flat(s'.directories[key])
  {
    var dir := s.directories[key];
    forall event | event in callbacks
      ensures event.Delete?
    {
      assert Has(Observed(HandleDelete(s, path).1), event);
    }
    ReplayDeletes(Flat(dir), callbacks);
    forall q
      ensures Lookup(Replay(Flat(dir), callbacks), q) == Lookup(Left(dir, key, path), q)
    {
      DeletesBelow(s, path, key, callbacks, q);
      LeftLook(dir, key, path, q);
    }
    SameLookups(Replay(Flat(dir), callbacks), Left(dir, key, path));
  }

  /** Of what this directory held, the callbacks delete what lies at or below the path. */
  lemma DeletesBelow(s: FileCache, path: Path, key: Path, callbacks: seq<Event>, q: Path)
    requires StateOk(s) && (forall k <- s.directories :: Clean(s.directories[k]))
    requires key in s.directories && key <= path && Records(callbacks, HandleDelete(s, path).1)
    ensures q in Flat(s.directories[key]) ==>
              (path <= q <==> exists event :: event in callbacks && PathOf(event.entry) == q)
  {
    var u := HandleDelete(s, path).1;
    if event :| event in callbacks && PathOf(event.entry) == q {
      assert Has(Observed(u), event);
      var e :| e in u.deletions && event.entry == SetExists(e, false);
      var k :| k in s.directories && k <= path && e in Lost(s.directories[k], k, path);
      LostBelow(s.directories[k], k, path, e);
    }
    if q in Flat(s.directories[key]) && path <= q {
      FlatLook(s.directories[key], q);
      LostAll(s.directories[key], key, path, q);
      var e :| e in Lost(s.directories[key], key, path) && PathOf(e) == q;
      assert e in u.deletions && Has(Observed(u), Delete(SetExists(e, false)));
    }
  }

  /** Replaying deletions takes their paths away. */
  lemma {:induction false} ReplayDeletes(m: map<Path, Entry>, events: seq<Event>)
    requires forall event <- events :: event.Delete?
    ensures forall q :: Lookup(Replay(m, events), q)
                        == if exists event :: event in events && PathOf(event.entry) == q then None else Lookup(m, q)
    decreases |events|
  {
    if events != [] {
      assert events[0] in events;
      ReplayDeletes(Apply(m, events[0]), events[1..]);
      assert forall event :: event in events <==> event == events[0] || event in events[1..];
    }
  }

  /** A deletion that concerns no stored directory changes and tells nothing. */
  lemma DeleteElsewhere(s: FileCache, path: Path)
    requires forall key <- s.directories :: !(key <= path)
    ensures HandleDelete(s, path) == (s, NOTHING)
  {
    var (s', told) := HandleDelete(s, path);
    assert s'.directories == s.directories && s'.pending == s.pending && told.deletions == {};
  }

  // ----- a path that was awaited

  /** Creations of exactly what a map holds build it from nothing. */
  lemma ReplayCreations(end: map<Path, Entry>, events: seq<Event>)
    requires forall event <- events :: event.Create? && Lookup(end, PathOf(event.entry)) == Some(event.entry)
    requires forall q <- end :: PathOf(end[q]) == q && Create(end[q]) in events
    ensures Replay(map[], events) == end
  {
    forall q | Lookup(map[], q) != Lookup(end, q)
      ensures exists event :: event in events && Concerns(event, q)
    {
      assert Concerns(Create(end[q]), q);
    }
    ReplayExplained(map[], map[], end, events);
  }

  /** The own entry and a listing to the own depth are all that a directory without double names holds. */
  lemma OwnDepthHolds(dir: Cached, key: Path, e: Entry)
    requires Struct(dir, key) && Clean(dir)
    ensures e in {dir.entry} + OwnListing(dir, dir.depth) <==> e in AllEntries(dir)
  {
    AllEntriesFlat(dir, key, e);
    AllEntriesFlat(dir, key, dir.entry);
    OwnDepthListing(dir, e);
  }

  /** What is told of a new directory tells an observer all it holds. */
  lemma StoredIsTold(s: FileCache, path: Path, dir: Cached, callbacks: seq<Event>)
    requires Struct(dir, path) && (Clean(dir) || (dir.files == map[] && dir.subs == map[] && dir.depth < 0))
    requires Records(callbacks, StorePending(s, path, dir).1)
    ensures Replay(map[], callbacks) == Flat(dir) && Flat(dir).Values == AllEntries(dir)
    ensures forall event <- callbacks :: event.Create?
  {
    var told := StorePending(s, path, dir).1;
    forall e
      ensures Create(e) in callbacks <==> e in AllEntries(dir)
      ensures e in AllEntries(dir) <==> Lookup(Flat(dir), PathOf(e)) == Some(e) && e.tp.path.Abs?
    {
      assert Has(Observed(told), Create(e)) <==> e in told.creations;
      FlatLook(dir, PathOf(e));
      if Clean(dir) {
        OwnDepthHolds(dir, path, e);
        AllEntriesFlat(dir, path, e);
      } else {
        OnlyItself(dir, path, PathOf(e));
      }
    }
    forall event | event in callbacks
      ensures event.Create? && Lookup(Flat(dir), PathOf(event.entry)) == Some(event.entry)
    {
      assert Has(Observed(told), event);
    }
    forall q | q in Flat(dir)
      ensures PathOf(Flat(dir)[q]) == q && Flat(dir)[q].tp.path.Abs?
    {
      FlatKeyed(dir, path, q);
      FlatLook(dir, q);
      LookKeyed(dir, path, q);
    }
    ReplayCreations(Flat(dir), callbacks);
    FlatHolds(dir);
  }

  lemma FlatHolds(dir: Cached)
    requires forall e :: e in AllEntries(dir) <==> Lookup(Flat(dir), PathOf(e)) == Some(e) && e.tp.path.Abs?
    requires forall q <- Flat(dir) :: PathOf(Flat(dir)[q]) == q && Flat(dir)[q].tp.path.Abs?
    ensures Flat(dir).Values == AllEntries(dir)
  {
    forall e
      ensures e in Flat(dir).Values <==> e in AllEntries(dir)
    {
      if e in AllEntries(dir) {
        assert PathOf(e) in Flat(dir).Keys && Flat(dir)[PathOf(e)] == e;
      }
      if e in Flat(dir).Values {
        var q :| q in Flat(dir) && Flat(dir)[q] == e;
      }
    }
  }

  lemma OnlyItself(dir: Cached, path: Path, q: Path)
    requires Struct(dir, path) && dir.files == map[] && dir.subs == map[]
    ensures Look(dir, q) == if q == path then Some(dir.entry) else None
  {
    if path <= q { assert q == path <==> q[|path|..] == []; }
  }

  lemma PendingOutcome(s: FileCache, path: Path, depth: int, filter: TypedPath -> bool, fs: Snapshot)
    requires path in s.pending
    ensures HandlePending(s, path, depth, filter, fs)
         == if Appears(fs, path, depth)
            then StorePending(s, path, Appeared(fs, path, depth, CacheFilter(filter, s.registered)))
            else (s, NOTHING)
  {
    assert s.pending + {path} == s.pending;
  }

  /** An event for a path that was missing when it was registered, and that `find` has no directory for. When it
      appears it is stored, and the callbacks tell an observer that had nothing of it all that is stored.
      Otherwise it stays awaited and nothing is told. No other directory changes. */
  lemma PendingIsTold(s: FileCache, tp: TypedPath, rescan: bool, filter: TypedPath -> bool, fs: Snapshot,
                      callbacks: seq<Event>)
    requires StateOk(s) && ValidAction(EventAction(tp, rescan, fs)) && tp.present
    requires FindKey(DepthsOf(s.directories), tp.path.names).None? && tp.path.names in s.pending
    requires Records(callbacks, HandleEvent(s, tp, rescan, filter, fs).1)
    ensures var s', path := HandleEvent(s, tp, rescan, filter, fs).0, tp.path.names;
            var dir := Appeared(fs, path, DepthFor(s.registered, path), CacheFilter(filter, s.registered));
            && path !in s.directories
            && if Appears(fs, path, DepthFor(s.registered, path)) then
                 && s' == s.(directories := s.directories[path := dir])
                 && Replay(map[], callbacks) == Flat(dir) && Replay(map[], callbacks).Values == AllEntries(dir)
                 && forall event <- callbacks :: event.Create?
               else s' == s && callbacks == []
  {
    var path, depth := tp.path.names, DepthFor(s.registered, tp.path.names);
    PendingNew(s, path);
    PendingOutcome(s, path, depth, filter, fs);
    if Appears(fs, path, depth) {
      var accept := CacheFilter(filter, s.registered);
      NewIsClean(fs, path, Appeared(fs, path, depth, accept).depth, accept);
      StoredIsTold(s, path, Appeared(fs, path, depth, accept), callbacks);
    } else {
      RecordsNothing(callbacks);
    }
  }

  lemma RecordsNothing(callbacks: seq<Event>)
    requires Records(callbacks, NOTHING)
    ensures callbacks == []
  {
    assert forall event :: !Has(Observed(NOTHING), event);
    SomeCallback(callbacks);
  }

  lemma SomeCallback(callbacks: seq<Event>)
    ensures callbacks == [] || exists event :: event in callbacks
  {
    if callbacks != [] { assert callbacks[0] in callbacks; }
  }

  lemma PendingNew(s: FileCache, path: Path)
    requires FindKey(DepthsOf(s.directories), path).None?
    ensures path !in s.directories
  {
    if path in s.directories {
      assert path in DepthsOf(s.directories) && Reaches(DepthsOf(s.directories)[path], path, path);
    }
  }

  /** A new directory has no double names; one that is not there holds nothing. */
  lemma NewIsClean(fs: Snapshot, path: Path, depth: int, accept: TypedPath -> bool)
    requires WellFormed(fs.root, []) && |path| <= MAX_INT && depth <= MAX_INT
    ensures var dir := ScanOf(fs, path, depth, accept);
            && Struct(dir, path) && dir.depth == depth
            && (NodeAt(fs.root, path).Some? ==> Clean(dir))
            && (NodeAt(fs.root, path).None? ==> dir.files == map[] && dir.subs == map[])
  {
    InitAtStruct(fs, Entry(Stat(fs, path), fs.convert(path)), depth, accept);
  }

  // ----- an update that throws

  /** An update throws only when it rescans the directory stored under its own path and that cannot be listed;
      then the directory is left with its own entry alone. */
  lemma ThrowsAtItself(dir: Cached, key: Path, tp: TypedPath, rescan: bool, accept: TypedPath -> bool, fs: Snapshot)
    requires Struct(dir, key) && key <= tp.path.names && Update(dir, tp, rescan, accept, fs).Threw?
    ensures var tree := Update(dir, tp, rescan, accept, fs).tree;
            && tp.path.names == key && tp.kind.dir && rescan && ListDirectory(fs, key).Failed?
            && tree.entry == dir.entry && tree.files == map[] && tree.subs == map[] && tree.depth == dir.depth >= 0
  {
  }

  /** Some other stored directory above the path holds `q`, at or below the path. */
  ghost predicate HeldAbove(s: FileCache, path: Path, q: Path) {
    path <= q && exists key :: key in s.directories && key < path && Look(s.directories[key], q).Some?
  }

  /** When a rescan cannot list a stored directory, the directory is dropped, and awaited if it is registered; what
      lies at or below its path is removed from all others. But the observers hear only of the path itself and
      of what another directory above it holds: whatever else the dropped directory held stays with them. */
  lemma ThrowIsTold(s: FileCache, tp: TypedPath, rescan: bool, filter: TypedPath -> bool, fs: Snapshot,
                    callbacks: seq<Event>)
    requires StateOk(s) && (forall k <- s.directories :: Clean(s.directories[k]))
    requires ValidAction(EventAction(tp, rescan, fs)) && tp.present && tp.path.names in s.directories
    requires Update(s.directories[tp.path.names], UpdatePath(tp), rescan, CacheFilter(filter, s.registered), fs).Threw?
    requires Records(callbacks, HandleEvent(s, tp, rescan, filter, fs).1)
    ensures var s', path := HandleEvent(s, tp, rescan, filter, fs).0, tp.path.names;
            && s'.registered == s.registered && s'.directories.Keys == s.directories.Keys - {path}
            && s'.pending == (if path in s.registered then s.pending + {path} else s.pending)
            && (forall k <- s'.directories :: s'.directories[k]
                  == if k < path then Remove(s.directories[k], path).0 else s.directories[k])
            && forall q :: Lookup(Replay(Flat(s.directories[path]), callbacks), q)
                           == if q == path || HeldAbove(s, path, q) then None else Look(s.directories[path], q)
  {
    var path, accept := tp.path.names, CacheFilter(filter, s.registered);
    OwnKey(s, path);
    var r := Update(s.directories[path], UpdatePath(tp), rescan, accept, fs);
    ThrowsAtItself(s.directories[path], path, UpdatePath(tp), rescan, accept, fs);
    ThrowDrops(s, tp, rescan, filter, fs);
    EmptiedOk(s, path, r.tree);
    ThrowReplay(s, path, r.tree, callbacks);
    DroppedState(s, path, r.tree);
  }

  lemma ThrowDrops(s: FileCache, tp: TypedPath, rescan: bool, filter: TypedPath -> bool, fs: Snapshot)
    requires StateOk(s) && tp.present && tp.path.names in s.directories
    requires FindKey(DepthsOf(s.directories), tp.path.names) == Some(tp.path.names)
    requires Update(s.directories[tp.path.names], UpdatePath(tp), rescan, CacheFilter(filter, s.registered), fs).Threw?
    ensures var path, accept := tp.path.names, CacheFilter(filter, s.registered);
            var tree := Update(s.directories[path], UpdatePath(tp), rescan, accept, fs).tree;
            HandleEvent(s, tp, rescan, filter, fs)
            == HandleDelete(s.(directories := s.directories[path := tree]), path)
  {
  }

  lemma DroppedState(s: FileCache, path: Path, tree: Cached)
    requires path in s.directories
    ensures var s' := HandleDelete(s.(directories := s.directories[path := tree]), path).0;
            && s'.registered == s.registered && s'.directories.Keys == s.directories.Keys - {path}
            && s'.pending == (if path in s.registered then s.pending + {path} else s.pending)
            && forall k <- s'.directories :: s'.directories[k]
                 == if k < path then Remove(s.directories[k], path).0 else s.directories[k]
  {
    var emptied := s.directories[path := tree];
    assert path in emptied && path <= path;
  }

  lemma OwnKey(s: FileCache, path: Path)
    requires path in s.directories
    ensures FindKey(DepthsOf(s.directories), path) == Some(path)
  {
    assert Reaches(DepthsOf(s.directories)[path], path, path);
    var found := FindKey(DepthsOf(s.directories), path).value;
    assert found == path[..|found|] && |path| <= |found|;
    assert path[..|path|] == path;
  }

  lemma EmptiedOk(s: FileCache, path: Path, tree: Cached)
    requires StateOk(s) && (forall k <- s.directories :: Clean(s.directories[k])) && path in s.directories
    requires tree.entry == s.directories[path].entry && tree.depth == s.directories[path].depth
    requires tree.files == map[] && tree.subs == map[] && tree.depth >= 0
    ensures Emptied(s, path, tree)
  {
    assert Struct(s.directories[path], path) && Clean(s.directories[path]);
  }

  /** An emptied directory loses its own entry. */
  lemma LostEmptied(tree: Cached, path: Path)
    requires Struct(tree, path) && tree.entry.tp.present
    requires tree.files == map[] && tree.subs == map[] && tree.depth >= 0
    ensures Lost(tree, path, path) == {tree.entry}
  {
    RemoveSelf(tree, path);
    assert ListSet(tree, MAX_INT, EveryEntry) == {};
  }

  /** A directory above loses what it holds at or below the path. */
  lemma LostAbove(dir: Cached, key: Path, path: Path, q: Path)
    requires Struct(dir, key) && Clean(dir) && key < path
    ensures (exists e :: e in Lost(dir, key, path) && PathOf(e) == q) <==> path <= q && Look(dir, q).Some?
  {
    RemoveFound(dir, key, path);
    if path <= q && Look(dir, q).Some? {
      LookKeyed(dir, key, q);
      assert SetExists(Look(dir, q).value, false) in Lost(dir, key, path);
    }
  }

  /** The directories without those of which one has been emptied. */
  ghost predicate Emptied(s: FileCache, path: Path, tree: Cached) {
    && StateOk(s) && (forall k <- s.directories :: Clean(s.directories[k])) && path in s.directories
    && Struct(tree, path) && Clean(tree) && tree.files == map[] && tree.subs == map[] && tree.depth >= 0
  }

  lemma ThrowReplay(s: FileCache, path: Path, tree: Cached, callbacks: seq<Event>)
    requires Emptied(s, path, tree)
    requires Records(callbacks, HandleDelete(s.(directories := s.directories[path := tree]), path).1)
    ensures forall q :: Lookup(Replay(Flat(s.directories[path]), callbacks), q)
                        == if q == path || HeldAbove(s, path, q) then None else Look(s.directories[path], q)
  {
    DeletesRecorded(s.(directories := s.directories[path := tree]), path, callbacks);
    ReplayDeletes(Flat(s.directories[path]), callbacks);
    forall q
      ensures (exists event :: event in callbacks && PathOf(event.entry) == q) <==> q == path || HeldAbove(s, path, q)
      ensures Lookup(Flat(s.directories[path]), q) == Look(s.directories[path], q)
    {
      ThrowDeletes(s, path, tree, q);
      FlatLook(s.directories[path], q);
    }
  }

  /** Some directory loses an entry at `q`. */
  ghost predicate LostSomewhere(s: FileCache, path: Path, q: Path) {
    exists k :: k in s.directories && k <= path && LostThere(s.directories[k], k, path, q)
  }

  ghost predicate LostThere(dir: Cached, key: Path, path: Path, q: Path)
    requires key <= path
  {
    exists e :: e in Lost(dir, key, path) && PathOf(e) == q
  }

  /** The callbacks of a deletion delete exactly what is lost. */
  lemma DeletesRecorded(s: FileCache, path: Path, callbacks: seq<Event>)
    requires Records(callbacks, HandleDelete(s, path).1)
    ensures forall event <- callbacks :: event.Delete?
    ensures forall q :: (exists event :: event in callbacks && PathOf(event.entry) == q) <==> LostSomewhere(s, path, q)
  {
    var told := HandleDelete(s, path).1;
    forall event | event in callbacks
      ensures event.Delete? && LostSomewhere(s, path, PathOf(event.entry))
    {
      assert Has(Observed(told), event);
      var e :| e in told.deletions && event.entry == SetExists(e, false);
      var k :| k in s.directories && k <= path && e in Lost(s.directories[k], k, path);
      assert LostThere(s.directories[k], k, path, PathOf(e));
    }
    forall q | LostSomewhere(s, path, q)
      ensures exists event :: event in callbacks && PathOf(event.entry) == q
    {
      var k :| k in s.directories && k <= path && LostThere(s.directories[k], k, path, q);
      var e :| e in Lost(s.directories[k], k, path) && PathOf(e) == q;
      assert e in told.deletions && Has(Observed(told), Delete(SetExists(e, false)));
    }
  }

  lemma ThrowDeletes(s: FileCache, path: Path, tree: Cached, q: Path)
    requires Emptied(s, path, tree)
    ensures LostSomewhere(s.(directories := s.directories[path := tree]), path, q)
       <==> q == path || HeldAbove(s, path, q)
  {
    var emptied := s.directories[path := tree];
    forall k | k in emptied && k <= path
      ensures LostThere(emptied[k], k, path, q)
         <==> if k == path then q == path else path <= q && Look(s.directories[k], q).Some?
    {
      if k == path {
        LostEmptied(tree, path);
        assert tree.entry in Lost(tree, path, path);
      } else {
        LostAbove(s.directories[k], k, path, q);
      }
    }
    assert path in emptied && path <= path;
  }

  // ----- the paths of updates

  lemma DiffKeepsPaths(before: map<Path, Entry>, after: map<Path, Entry>)
    requires forall q <- before :: PathOf(before[q]) == q
    requires forall q <- after :: PathOf(after[q]) == q
    ensures UpdatesKeepPaths(Diff(before, after))
  {
  }

  lemma AllKeyed(c: Cached, path: Path)
    requires Struct(c, path)
    ensures forall q <- Flat(c) :: PathOf(Flat(c)[q]) == q
  {
    forall q | q in Flat(c)
      ensures PathOf(Flat(c)[q]) == q
    {
      FlatKeyed(c, path, q);
    }
  }

  lemma AddedKeepsPaths(c: Cached, path: Path, p: Name, tp: TypedPath, accept: TypedPath -> bool, fs: Snapshot)
    requires Struct(c, path) && c.depth <= MAX_INT && tp.path == Abs(path + [p]) && |path + [p]| <= MAX_INT
    requires WellFormed(fs.root, [])
    ensures UpdatesKeepPaths(AddDirectory(c, p, tp, accept, fs).1)
  {
    var entry := Entry(tp, fs.convert(tp.path.names));
    InitAtStruct(fs, entry, SubdirectoryDepth(c.depth), accept);
    var dir := InitAt(fs, entry, SubdirectoryDepth(c.depth), accept);
    AllKeyed(dir, path + [p]);
    if p in c.subs { AllKeyed(c.subs[p], path + [p]); }
    DiffKeepsPaths(if p in c.subs then Flat(c.subs[p]) else map[], Flat(dir));
  }

  lemma LeafKeepsPaths(c: Cached, path: Path, p: Name, entry: Entry, rescan: bool)
    requires Struct(c, path) && entry.tp.path == Abs(path + [p])
    ensures UpdatesKeepPaths(LeafChanges(c, p, entry, rescan))
  {
    if p in c.subs { assert Struct(c.subs[p], path + [p]); }
    if Key(p) in c.files {
      assert FileOk(c, path, Key(p));
      assert PathOf(Resolve(path, c.files[Key(p)])) == path + [p];
    }
  }

  lemma {:induction false} PartsKeepPaths(c: Cached, path: Path, parts: Path, tp: TypedPath, rescan: bool,
                                          accept: TypedPath -> bool, fs: Snapshot)
    requires Struct(c, path) && ValidUpdate(path, parts, tp, fs)
    ensures UpdatesKeepPaths(UpdateParts(c, parts, tp, rescan, accept, fs).1)
    decreases |parts|
  {
    var p := parts[0];
    if c.depth >= 0 && p != NoName {
      if |parts| == 1 {
        assert parts == [p];
        LeafKeepsPaths(c, path, p, LeafEntry(c, p, tp, fs), rescan);
        AddedKeepsPaths(c, path, p, tp, accept, fs);
        if p in c.subs { assert Struct(c.subs[p], path + [p]); }
      } else if p in c.subs {
        ValidUpdateBelow(path, parts, tp, fs);
        PartsKeepPaths(c.subs[p], path + [p], parts[1..], tp, rescan, accept, fs);
      } else if c.depth > 0 {
        AddedKeepsPaths(c, path, p, Stat(fs, path + [p]), accept, fs);
      }
    }
  }

  lemma UpdateKeepsPaths(c: Cached, path: Path, tp: TypedPath, rescan: bool, accept: TypedPath -> bool, fs: Snapshot)
    requires Struct(c, path) && CacheRuns.ValidCall(path, tp, fs) && Update(c, tp, rescan, accept, fs).Updated?
    ensures UpdatesKeepPaths(Update(c, tp, rescan, accept, fs).changes)
  {
    if accept(tp) && tp.present {
      if path == tp.path.names {
        var c' := UpdateRoot(c, tp, rescan, accept, fs).tree;
        CacheRuns.UpdateRootStruct(c, path, tp, rescan, accept, fs);
        AllKeyed(c, path);
        AllKeyed(c', path);
        DiffKeepsPaths(ListedMap(c), ListedMap(c'));
      } else {
        CacheRuns.ValidBelow(path, tp, fs);
        PartsKeepPaths(c, path, Relativize(path, tp.path.names), tp, rescan, accept, fs);
      }
    }
  }

  /** Every update that an event makes the observers hear of keeps its path. */
  lemma ToldKeepsPaths(s: FileCache, tp: TypedPath, rescan: bool, filter: TypedPath -> bool, fs: Snapshot)
    requires StateOk(s) && ValidAction(EventAction(tp, rescan, fs))
    ensures UpdatesKeepPaths(HandleEvent(s, tp, rescan, filter, fs).1)
  {
    var key := FindKey(DepthsOf(s.directories), tp.path.names);
    if tp.present && key.Some? {
      var dir, accept := s.directories[key.value], CacheFilter(filter, s.registered);
      if Update(dir, UpdatePath(tp), rescan, accept, fs).Updated? {
        UpdateKeepsPaths(dir, key.value, UpdatePath(tp), rescan, accept, fs);
      }
    }
  }
}
