/** The registration of cached directories, updated in place. The cached directories themselves are
    held as values: `CachedDirectories` relates those to objects. */
module FileCacheDirectoryTrees {
  import opened Wrappers
  import opened Entries
  import opened Snapshots
  import opened CacheTree
  import opened CacheInvariants
  import opened CacheListing
  import opened CachePut
  import opened Replays
  import opened DirectoryRegistries
  import opened FileCacheTree
  import T = FileCacheTree
  import opened FileCacheRemembers
  import opened Callbacks
  import FileCacheEvents
  import CachedDirectories

  /** Each path once, and none before a path that it extends: what sorting paths guarantees of the
      paths above one path. */
  predicate Ascending(paths: seq<Path>) {
    && (forall i, j | 0 <= i < j < |paths| :: !(paths[j] <= paths[i]))
  }

  /** Some path is the shortest. */
  lemma {:induction false} ShortestPath(paths: set<Path>) returns (first: Path)
    requires paths != {}
    ensures first in paths && forall p <- paths :: |first| <= |p|
    decreases |paths|
  {
    first :| first in paths;
    var rest := paths - {first};
    if rest != {} {
      var next := ShortestPath(rest);
      assert forall p <- paths :: p == first || p in rest;
      if |next| < |first| {
        first := next;
      }
    }
  }

  lemma NotAbove(p: Path, q: Path)
    requires |p| <= |q| && p != q
    ensures !(q <= p)
  {
  }

  lemma AppendAscending(sorted: seq<Path>, p: Path)
    requires Ascending(sorted) && forall q <- sorted :: !(p <= q)
    ensures Ascending(sorted + [p])
  {
    var more := sorted + [p];
    forall i, j | 0 <= i < j < |more|
      ensures !(more[j] <= more[i])
    {
      assert more[i] == sorted[i] && sorted[i] in sorted;
    }
  }

  method Sorted(paths: set<Path>) returns (sorted: seq<Path>)
    ensures Ascending(sorted) && forall p :: p in sorted <==> p in paths
  {
    sorted := [];
    var todo := paths;
    while todo != {}
      invariant todo <= paths && Ascending(sorted)
      invariant forall p :: p in sorted <==> p in paths && p !in todo
      invariant forall p, q | p in sorted && q in todo :: !(q <= p)
      decreases todo
    {
      ghost var first := ShortestPath(todo);
      var p :| p in todo && forall q <- todo :: |p| <= |q|;
      forall q | q in todo && q != p
        ensures !(q <= p)
      {
        NotAbove(p, q);
      }
      AppendAscending(sorted, p);
      sorted, todo := sorted + [p], todo - {p};
    }
  }

  /** The last of the ascending paths that reaches `path` is what `find` takes. */
  lemma LastReaches(depths: Depths, dirs: seq<Path>, found: Option<Path>, i: nat, path: Path)
    requires Ascending(dirs) && (forall p :: p in dirs <==> p in depths) && i <= |dirs|
    requires found.Some? ==> i < |dirs| && dirs[i] == found.value && found.value <= path
                             && Reaches(depths[found.value], found.value, path)
    requires forall j | (if found.Some? then i + 1 else i) <= j < |dirs| ::
               dirs[j] <= path ==> !Reaches(depths[dirs[j]], dirs[j], path)
    requires found.None? ==> i == 0
    ensures found == FindKey(depths, path)
  {
    var key := FindKey(depths, path);
    if found.Some? {
      assert found.value in depths;
      assert key.Some? && found.value <= key.value;
    }
    if key.Some? {
      assert key.value in dirs;
      var j :| 0 <= j < |dirs| && dirs[j] == key.value;
      assert found.Some? && j <= i;
    }
  }

  // ----- `handleDelete`, directory by directory

  /** The cache when `todo` remain to be visited. */
  ghost function DeletedSoFar(s: FileCache, path: Path, todo: set<Path>): FileCache {
    FileCache(
      s.registered,
      map key | key in s.directories && (key != path || key in todo) ::
        if key <= path && key !in todo then Remove(s.directories[key], path).0 else s.directories[key],
      if path in s.registered && exists key :: key in s.directories && key !in todo && key <= path
      then s.pending + {path} else s.pending)
  }

  ghost function LostSoFar(s: FileCache, path: Path, todo: set<Path>): set<Entry> {
    set key, e | key in s.directories && key !in todo && key <= path && e in Lost(s.directories[key], key, path) :: e
  }

  lemma DeletedAll(s: FileCache, path: Path)
    ensures HandleDelete(s, path) == (DeletedSoFar(s, path, {}), Changes({}, {}, LostSoFar(s, path, {})))
  {
    var s1, s2 := HandleDelete(s, path).0, DeletedSoFar(s, path, {});
    assert s1.directories == s2.directories;
    assert HandleDelete(s, path).1.deletions == LostSoFar(s, path, {});
    assert s1.pending == s2.pending;
  }

  lemma DeletedNone(s: FileCache, path: Path)
    ensures DeletedSoFar(s, path, s.directories.Keys) == s && LostSoFar(s, path, s.directories.Keys) == {}
  {
    assert (map key | key in s.directories :: s.directories[key]) == s.directories;
  }

  lemma DeletedOne(s: FileCache, path: Path, todo: set<Path>, key: Path)
    requires key in todo && todo <= s.directories.Keys
    ensures var s1, s2 := DeletedSoFar(s, path, todo), DeletedSoFar(s, path, todo - {key});
            && key in s1.directories && s1.directories[key] == s.directories[key]
            && s2 == if key <= path then
                       FileCache(
                         s.registered,
                         if key == path then s1.directories - {key}
                         else s1.directories[key := Remove(s.directories[key], path).0],
                         if path in s.registered then s1.pending + {path} else s1.pending)
                     else s1
    ensures LostSoFar(s, path, todo - {key})
         == LostSoFar(s, path, todo) + if key <= path then Lost(s.directories[key], key, path) else {}
  {
    var s1, s2 := DeletedSoFar(s, path, todo), DeletedSoFar(s, path, todo - {key});
    forall k
      ensures k in s2.directories <==> k in s1.directories && (k != key || key != path)
      ensures k in s2.directories && k != key ==> s2.directories[k] == s1.directories[k]
    {
    }
    if key !in s2.directories {
      assert s2.directories == s1.directories - {key};
    } else if key <= path {
      assert s2.directories == s1.directories[key := Remove(s.directories[key], path).0];
    } else {
      assert s2.directories == s1.directories;
    }
    LostOne(s, path, todo, key);
  }

  lemma LostOne(s: FileCache, path: Path, todo: set<Path>, key: Path)
    requires key in todo && todo <= s.directories.Keys
    ensures LostSoFar(s, path, todo - {key})
         == LostSoFar(s, path, todo) + if key <= path then Lost(s.directories[key], key, path) else {}
  {
    forall e
      ensures e in LostSoFar(s, path, todo - {key}) <==>
              e in LostSoFar(s, path, todo) || (key <= path && e in Lost(s.directories[key], key, path))
    {
      if e in LostSoFar(s, path, todo - {key}) {
        var k :| k in s.directories && k !in todo - {key} && k <= path && e in Lost(s.directories[k], k, path);
        assert k == key || k !in todo;
      }
    }
  }

  class FileCacheDirectoryTree {
    const registry: DirectoryRegistry
    const filter: TypedPath -> bool
    const rescanOnDirectoryUpdate: bool
    var directories: map<Path, Cached>
    var pendingFiles: set<Path>

    constructor (filter: TypedPath -> bool, rescanOnDirectoryUpdate: bool)
      ensures State() == FileCache(map[], map[], {}) && fresh(registry)
      ensures this.filter == filter && this.rescanOnDirectoryUpdate == rescanOnDirectoryUpdate
    {
      this.filter := filter;
      this.rescanOnDirectoryUpdate := rescanOnDirectoryUpdate;
      registry := new DirectoryRegistry();
      directories, pendingFiles := map[], {};
    }

    ghost function State(): FileCache
      reads this, registry
    {
      FileCache(registry.registered, directories, pendingFiles)
    }

    /** `find`: the directories in descending order of their paths. */
    method Find(path: Path) returns (found: Option<Path>)
      ensures found == FindKey(DepthsOf(directories), path)
    {
      var dirs := Sorted(directories.Keys);
      var i := |dirs|;
      found := None;
      while i > 0 && found.None?
        invariant 0 <= i <= |dirs|
        invariant found.Some? ==> i < |dirs| && dirs[i] == found.value && found.value <= path
                                  && Reaches(directories[found.value].depth, found.value, path)
        invariant forall j | (if found.Some? then i + 1 else i) <= j < |dirs| ::
                    dirs[j] <= path ==> !Reaches(directories[dirs[j]].depth, dirs[j], path)
      {
        i := i - 1;
        var dir := dirs[i];
        assert dir in dirs;
        if dir <= path {
          if directories[dir].depth == MAX_INT || path == dir {
            found := Some(dir);
          } else {
            var depth := |Relativize(dir, path)| - 1;
            if depth <= directories[dir].depth {
              found := Some(dir);
            }
          }
        }
      }
      LastReaches(DepthsOf(directories), dirs, found, i, path);
    }

    /** The first directory, in ascending order of their paths, that `register` leaves the path to. */
    method FindExisting(path: Path, maxDepth: int) returns (existing: Option<Path>)
      ensures existing == ExistingFor(DepthsOf(directories), path, maxDepth)
    {
      var dirs := Sorted(directories.Keys);
      var i := 0;
      existing := None;
      while i < |dirs| && existing.None?
        invariant 0 <= i <= |dirs|
        invariant existing.Some? ==> 0 < i && dirs[i - 1] == existing.value && existing.value <= path
                                     && Exceeds(directories[existing.value].depth, existing.value, path, maxDepth)
        invariant forall j | 0 <= j < (if existing.Some? then i - 1 else i) ::
                    dirs[j] <= path ==> !Exceeds(directories[dirs[j]].depth, dirs[j], path, maxDepth)
      {
        var dir := dirs[i];
        assert dir in dirs;
        if dir <= path {
          var depth := |Relativize(dir, path)| - 1;
          if directories[dir].depth == MAX_INT || Wrap(directories[dir].depth - depth) > maxDepth {
            existing := Some(dir);
          }
        }
        i := i + 1;
      }
      FirstExceeds(dirs, existing, i, path, maxDepth);
    }

    lemma FirstExceeds(dirs: seq<Path>, existing: Option<Path>, i: nat, path: Path, maxDepth: int)
      requires Ascending(dirs) && (forall p :: p in dirs <==> p in directories) && i <= |dirs|
      requires existing.Some? ==> 0 < i && dirs[i - 1] == existing.value && existing.value <= path
                                  && Exceeds(directories[existing.value].depth, existing.value, path, maxDepth)
      requires forall j | 0 <= j < (if existing.Some? then i - 1 else i) ::
                 dirs[j] <= path ==> !Exceeds(directories[dirs[j]].depth, dirs[j], path, maxDepth)
      requires existing.None? ==> i == |dirs|
      ensures existing == ExistingFor(DepthsOf(directories), path, maxDepth)
    {
      var key := ExistingFor(DepthsOf(directories), path, maxDepth);
      if key.Some? {
        assert key.value in dirs;
        var j :| 0 <= j < |dirs| && dirs[j] == key.value;
      }
    }

    /** Collects what has become redundant, and then removes it. */
    method CleanupDirectories(path: Path, maxDepth: int)
      modifies this`directories
      ensures directories == Cleanup(old(directories), path, maxDepth)
    {
      var toRemove: set<Path> := {};
      var todo := directories.Keys;
      while todo != {}
        invariant todo <= directories.Keys
        invariant toRemove == set key | key in directories && key !in todo
                                        && Redundant(directories[key].depth, key, path, maxDepth)
        decreases todo
      {
        var key :| key in todo;
        todo := todo - {key};
        if path <= key && key != path {
          if maxDepth == MAX_INT {
            toRemove := toRemove + {key};
          } else {
            var depth := |Relativize(path, key)|;
            if Wrap(maxDepth - depth) >= directories[key].depth {
              toRemove := toRemove + {key};
            }
          }
        }
      }
      directories := directories - toRemove;
    }

    /** `newCachedDirectory`: tried three times, as long as access is denied. */
    method NewCachedDirectory(path: Path, depth: int, fs: Snapshot) returns (result: NewDirectory)
      ensures result == T.NewCachedDirectory(fs, path, depth, CacheFilter(filter, registry.registered))
    {
      var attempt := 1;
      var created: Option<Cached> := None;
      while created.None? && attempt <= 3
        invariant 1 <= attempt <= 4
        invariant created.Some? ==> T.NewCachedDirectory(fs, path, depth, CacheFilter(filter, registry.registered))
                                    == Created(created.value)
        invariant created.None? && attempt > 1 ==> depth >= 0 && ListDirectory(fs, path) == Failed(AccessDenied)
      {
        var listing := ListDirectory(fs, path);
        if depth >= 0 && listing.Failed? && listing.error != AccessDenied {
          return NotCreated(listing.error);
        } else if depth < 0 || listing.Children? {
          created := Some(ScanOf(fs, path, depth, CacheFilter(filter, registry.registered)));
        }
        attempt := attempt + 1;
      }
      return if created.None? then NotCreated(NoSuchFile) else Created(created.value);
    }

    /** `register`. */
    method Register(path: Path, maxDepth: int, watched: bool, fs: Snapshot) returns (result: RegisterResult)
      requires StateOk(State())
      modifies this`directories, this`pendingFiles, registry
      ensures (State(), result) == T.Register(old(State()), path, maxDepth, watched, filter, fs)
    {
      var added := registry.AddDirectory(path, maxDepth);
      if !added {
        return NotAdded;
      }
      if !watched {
        return NotWatched;
      }
      var existing := FindExisting(path, maxDepth);
      match existing {
        case Some(key) => result := RegisterWithin(key, path, maxDepth, fs);
        case None => result := RegisterNew(path, maxDepth, fs);
      }
    }

    method RegisterWithin(key: Path, path: Path, maxDepth: int, fs: Snapshot) returns (result: RegisterResult)
      requires key in directories && PathOf(directories[key].entry) <= path
      modifies this`directories
      ensures (State(), result) == T.RegisterWithin(old(State()), key, path, maxDepth, filter, fs)
    {
      var r := Update(directories[key], Stat(fs, path), true, CacheFilter(filter, registry.registered), fs);
      directories := directories[key := r.tree];
      if r.Threw? {
        return UpdateFailed(r.error);
      }
      CleanupDirectories(path, maxDepth);
      return RegisterResult.Registered(r.tree);
    }

    method RegisterNew(path: Path, maxDepth: int, fs: Snapshot) returns (result: RegisterResult)
      modifies this`directories, this`pendingFiles
      ensures (State(), result) == T.RegisterNew(old(State()), path, maxDepth, filter, fs)
    {
      var new' := NewCachedDirectory(path, maxDepth, fs);
      if new'.NotCreated? && new'.error == NotDirectory {
        new' := NewCachedDirectory(path, -1, fs);
      }
      var dir;
      if new'.Created? {
        dir := new'.dir;
        directories := directories[path := dir];
      } else {
        pendingFiles := pendingFiles + {path};
        dir := ScanOf(fs, path, -1, CacheFilter(filter, registry.registered));
      }
      CleanupDirectories(path, maxDepth);
      return RegisterResult.Registered(dir);
    }

    /** `handleEvent`: the callbacks in the order in which they run. They are those recorded, stably
        sorted, which makes no difference to an observer. */
    method HandleEvent(tp: TypedPath, overflow: bool, fs: Snapshot)
      returns (callbacks: seq<Event>, ghost recorded: seq<Event>)
      requires StateOk(State()) && ValidAction(EventAction(tp, rescanOnDirectoryUpdate || overflow, fs))
      modifies this`directories, this`pendingFiles
      ensures var (s, told) := T.HandleEvent(old(State()), tp, rescanOnDirectoryUpdate || overflow, filter, fs);
              State() == s && Records(callbacks, told)
      ensures StablySorted(recorded, callbacks) && forall m :: Replay(m, callbacks) == Replay(m, recorded)
    {
      FileCacheEvents.ToldKeepsPaths(State(), tp, rescanOnDirectoryUpdate || overflow, filter, fs);
      var path := tp.path.names;
      var told := NOTHING;
      if tp.present {
        var found := Find(path);
        match found {
          case Some(key) => told := HandleUpdate(key, tp, rescanOnDirectoryUpdate || overflow, fs);
          case None =>
            if path in pendingFiles {
              told := HandlePending(path, fs);
            }
        }
      } else {
        told := HandleDelete(path);
      }
      callbacks, recorded := RunCallbacks(told);
    }

    /** Records the callbacks, each at least once, and sorts them. */
    method RunCallbacks(told: Told) returns (sorted: seq<Event>, ghost recorded: seq<Event>)
      requires UpdatesKeepPaths(told)
      ensures Records(sorted, told) && Records(recorded, told)
      ensures StablySorted(recorded, sorted) && forall m :: Replay(m, sorted) == Replay(m, recorded)
    {
      var callbacks := EventList(told);
      sorted := Sort(callbacks);
      recorded := callbacks;
      assert forall event :: event in sorted <==> event in multiset(sorted);
      assert forall event :: event in callbacks <==> event in multiset(callbacks);
      RecordedSamePaths(callbacks, told);
      forall m
        ensures Replay(m, sorted) == Replay(m, recorded)
      {
        SortingIsHarmless(m, callbacks, sorted);
      }
    }

    method HandleUpdate(key: Path, tp: TypedPath, rescan: bool, fs: Snapshot) returns (told: Told)
      requires key in directories && PathOf(directories[key].entry) <= tp.path.names
      modifies this`directories, this`pendingFiles
      ensures (State(), told) == T.HandleUpdate(old(State()), key, tp, rescan, filter, fs)
    {
      var updatePath := if tp.kind.link then TypedPath(tp.path, true, LINK) else tp;
      var r := Update(directories[key], updatePath, rescan, CacheFilter(filter, registry.registered), fs);
      directories := directories[key := r.tree];
      if r.Threw? {
        told := HandleDelete(tp.path.names);
      } else {
        told := r.changes;
      }
    }

    method HandlePending(path: Path, fs: Snapshot) returns (told: Told)
      modifies this`directories, this`pendingFiles
      ensures (State(), told)
           == T.HandlePending(old(State()), path, DepthFor(registry.registered, path), filter, fs)
    {
      var depth := registry.MaxDepthFor(path);
      var new' := NewCachedDirectory(path, depth, fs);
      if new'.NotCreated? && new'.error == NotDirectory {
        new' := NewCachedDirectory(path, -1, fs);
      }
      if new'.NotCreated? {
        pendingFiles := pendingFiles + {path};
        return NOTHING;
      }
      directories := directories[path := new'.dir];
      return Changes({new'.dir.entry} + OwnListing(new'.dir, new'.dir.depth), {}, {});
    }

    /** `handleDelete`: visits the directories in some order. */
    method HandleDelete(path: Path) returns (told: Told)
      modifies this`directories, this`pendingFiles
      ensures (State(), told) == T.HandleDelete(old(State()), path)
    {
      ghost var start := State();
      var gone: set<Entry> := {};
      var todo := directories.Keys;
      DeletedNone(start, path);
      while todo != {}
        invariant todo <= start.directories.Keys
        invariant State() == DeletedSoFar(start, path, todo) && gone == LostSoFar(start, path, todo)
        decreases todo
      {
        var key :| key in todo;
        DeletedOne(start, path, todo, key);
        if key <= path {
          var lost := DeleteIn(key, path);
          gone := gone + lost;
        }
        todo := todo - {key};
      }
      DeletedAll(start, path);
      return Changes({}, {}, gone);
    }

    /** One directory of that loop. */
    method DeleteIn(key: Path, path: Path) returns (lost: set<Entry>)
      requires key in directories && key <= path
      modifies this`directories, this`pendingFiles
      ensures lost == Lost(old(directories)[key], key, path)
      ensures directories == if key == path then old(directories) - {key}
                             else old(directories)[key := Remove(old(directories)[key], path).0]
      ensures pendingFiles == if path in registry.registered then old(pendingFiles) + {path} else old(pendingFiles)
    {
      lost := {};
      var dir := directories[key];
      if path == key {
        lost := OwnListing(dir, MAX_INT);
      }
      var (tree, removed) := Remove(dir, path);
      lost := lost + removed;
      directories := directories[key := tree];
      if path in registry.registered {
        pendingFiles := pendingFiles + {path};
      }
      if path == key {
        directories := directories - {path};
        lost := lost + {dir.entry};
      }
    }

    /** `listEntries`. */
    method ListEntries(path: Path, maxDepth: int, filter: Entry -> bool) returns (result: set<Entry>)
      ensures result == T.ListEntries(State(), path, maxDepth, filter)
    {
      var found := Find(path);
      if found.None? {
        return {};
      }
      var dir := directories[found.value];
      if found.value == path && dir.depth == -1 {
        return {dir.entry};
      }
      var depth := registry.MaxDepthFor(path);
      return ListAt(dir, path, if depth < maxDepth then depth else maxDepth, filter);
    }
  }

  /** The callbacks for some changes: creations, updates, deletions. */
  method EventList(told: Told) returns (callbacks: seq<Event>)
    ensures Records(callbacks, told)
  {
    callbacks := [];
    var creations, updates, deletions := told.creations, told.updates, told.deletions;
    while creations != {}
      invariant creations <= told.creations
      invariant forall event :: event in callbacks <==>
                                event.Create? && event.entry in told.creations && event.entry !in creations
      decreases creations
    {
      var e :| e in creations;
      callbacks, creations := callbacks + [Create(e)], creations - {e};
    }
    while updates != {}
      invariant updates <= told.updates
      invariant forall event :: event in callbacks <==>
                  || (event.Create? && event.entry in told.creations)
                  || (event.Modify? && (event.before, event.after) in told.updates
                      && (event.before, event.after) !in updates)
      decreases updates
    {
      var u :| u in updates;
      callbacks, updates := callbacks + [Modify(u.0, u.1)], updates - {u};
    }
    while deletions != {}
      invariant deletions <= told.deletions
      invariant forall event :: event in callbacks <==>
                  || (event.Create? && event.entry in told.creations)
                  || (event.Modify? && (event.before, event.after) in told.updates)
                  || (event.Delete? && exists d :: d in told.deletions && d !in deletions
                                                   && event.entry == SetExists(d, false))
      decreases deletions
    {
      var e :| e in deletions;
      callbacks, deletions := callbacks + [Delete(SetExists(e, false))], deletions - {e};
    }
  }

  /** What `listEntries` takes from a cached directory is what the object of that value reports. */
  lemma ListAtIsListed(dir: Cached, key: Path, path: Path, maxDepth: int, filter: Entry -> bool, e: Entry)
    requires Struct(dir, key) && key <= path
    ensures e in ListAt(dir, path, maxDepth, filter)
       <==> CachedDirectories.ListedAtCount(dir, Abs(path), maxDepth, filter, false, e) > 0
  {
    var rel := path[|key|..];
    if DirAt(dir, rel).Some? {
      DirAtStruct(dir, key, rel);
      ListCountSet(DirAt(dir, rel).value, key + rel, maxDepth, filter, e);
    }
  }
}
