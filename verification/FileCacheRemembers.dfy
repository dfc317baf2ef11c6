/** No registered path is forgotten: over every run of registrations and file events it is cached,
    or awaited, under itself or a path above it. */
module FileCacheRemembers {
  import opened Wrappers
  import opened Entries
  import opened Snapshots
  import opened CacheTree
  import opened CacheInvariants
  import opened CacheRuns
  import opened DirectoryRegistries
  import opened FileCacheTree
  import opened FileCacheCoverage

  predicate Known(s: FileCache, path: Path) {
    path in s.directories || path in s.pending
  }

  /** `path` or a path above it is cached or awaited. */
  ghost predicate Remembers(s: FileCache, path: Path) {
    exists key :: key <= path && Known(s, key)
  }

  ghost predicate NothingForgotten(s: FileCache) {
    && StateOk(s)
    && (forall key | Known(s, key) :: key in s.registered)
    && (forall path <- s.registered :: Remembers(s, path))
  }

  datatype Action =
    | RegisterAction(path: Path, maxDepth: int, fs: Snapshot)
    | EventAction(tp: TypedPath, rescan: bool, fs: Snapshot)

  ghost predicate ValidAction(action: Action) {
    match action
    case RegisterAction(path, maxDepth, fs) =>
      Proper(path) && |path| <= MAX_INT && IsInt(maxDepth) && WellFormed(fs.root, [])
    case EventAction(tp, _, fs) =>
      tp.path.Abs? && Proper(tp.path.names) && |tp.path.names| <= MAX_INT && WellFormed(fs.root, [])
  }

  ghost function Act(s: FileCache, action: Action, filter: TypedPath -> bool): FileCache
    requires StateOk(s)
  {
    match action
    case RegisterAction(path, maxDepth, fs) => Register(s, path, maxDepth, true, filter, fs).0
    case EventAction(tp, rescan, fs) => HandleEvent(s, tp, rescan, filter, fs).0
  }

  /** The states of a run from an empty cache. The watcher accepts every path; the file system may
      change between the actions, and be anything at each. */
  ghost predicate IsRun(states: seq<FileCache>, actions: seq<Action>, filter: TypedPath -> bool) {
    && |states| == |actions| + 1 && states[0] == FileCache(map[], map[], {})
    && forall i | 0 <= i < |actions| ::
         ValidAction(actions[i]) && IsStep(states[i], actions[i], filter, states[i + 1])
  }

  ghost predicate IsStep(s: FileCache, action: Action, filter: TypedPath -> bool, s': FileCache) {
    StateOk(s) && s' == Act(s, action, filter)
  }

  // ----- steps

  /** Dropping what lies below a known path forgets nothing. */
  lemma CleanupRemembers(s: FileCache, s': FileCache, path: Path, maxDepth: int, root: Path)
    requires forall p <- s.registered :: Remembers(s, p)
    requires root <= path && Known(s, root)
    requires s' == s.(directories := Cleanup(s.directories, path, maxDepth))
    ensures forall p <- s.registered :: Remembers(s', p)
  {
    forall p | p in s.registered
      ensures Remembers(s', p)
    {
      var key :| key <= p && Known(s, key);
      if path < key {
        assert root <= p && Known(s', root);
      } else {
        assert Known(s', key);
      }
    }
  }

  lemma AddKnown(s: FileCache, s': FileCache, path: Path)
    requires forall p <- s.registered :: p == path || Remembers(s, p)
    requires forall key | Known(s, key) :: Known(s', key)
    requires s'.registered == s.registered && Known(s', path)
    ensures forall p <- s.registered :: Remembers(s', p)
  {
    forall p | p in s.registered
      ensures Remembers(s', p)
    {
      if p == path {
        assert p <= p && Known(s', p);
      } else {
        var key :| key <= p && Known(s, key);
        assert Known(s', key);
      }
    }
  }

  lemma CleanupOk(s: FileCache, path: Path, maxDepth: int)
    requires StateOk(s)
    ensures StateOk(s.(directories := Cleanup(s.directories, path, maxDepth)))
  {
  }

  lemma RegisterNewRemembers(s: FileCache, path: Path, maxDepth: int, filter: TypedPath -> bool, fs: Snapshot)
    requires StateOk(s) && ValidAction(RegisterAction(path, maxDepth, fs)) && path in s.registered
    requires forall key | Known(s, key) :: key in s.registered
    requires forall p <- s.registered :: p == path || Remembers(s, p)
    ensures NothingForgotten(RegisterNew(s, path, maxDepth, filter, fs).0)
  {
    var accept := CacheFilter(filter, s.registered);
    ScanStruct(fs, path, maxDepth, accept);
    ScanStruct(fs, path, -1, accept);
    var stored :=
      match NewCachedDirectory(fs, path, maxDepth, accept)
      case Created(dir) => s.(directories := s.directories[path := dir])
      case NotCreated(error) =>
        if error == NotDirectory then s.(directories := s.directories[path := ScanOf(fs, path, -1, accept)])
        else s.(pending := s.pending + {path});
    AddKnown(s, stored, path);
    CleanupOk(stored, path, maxDepth);
    CleanupRemembers(stored, stored.(directories := Cleanup(stored.directories, path, maxDepth)), path, maxDepth, path);
  }

  lemma RegisterWithinRemembers(s: FileCache, key: Path, path: Path, maxDepth: int, filter: TypedPath -> bool,
                                fs: Snapshot)
    requires StateOk(s) && ValidAction(RegisterAction(path, maxDepth, fs)) && path in s.registered
    requires key in s.directories && key <= path
    requires forall k | Known(s, k) :: k in s.registered
    requires forall p <- s.registered :: p == path || Remembers(s, p)
    ensures NothingForgotten(RegisterWithin(s, key, path, maxDepth, filter, fs).0)
  {
    var r := Update(s.directories[key], Stat(fs, path), true, CacheFilter(filter, s.registered), fs);
    UpdateStruct(s.directories[key], key, Stat(fs, path), true, CacheFilter(filter, s.registered), fs);
    var updated := s.(directories := s.directories[key := r.tree]);
    assert Known(updated, key);
    forall p | p in s.registered
      ensures Remembers(updated, p)
    {
      if p != path {
        var k :| k <= p && Known(s, k);
        assert Known(updated, k);
      }
    }
    CleanupOk(updated, path, maxDepth);
    var cleaned := updated.(directories := Cleanup(updated.directories, path, maxDepth));
    CleanupRemembers(updated, cleaned, path, maxDepth, key);
  }

  lemma RegisterRemembers(s: FileCache, path: Path, maxDepth: int, filter: TypedPath -> bool, fs: Snapshot)
    requires NothingForgotten(s) && ValidAction(RegisterAction(path, maxDepth, fs))
    ensures NothingForgotten(Register(s, path, maxDepth, true, filter, fs).0)
  {
    if Adds(s.registered, path, maxDepth) {
      var s' := s.(registered := s.registered[path := maxDepth]);
      forall p | p in s'.registered
        ensures p == path || Remembers(s', p)
      {
        if p != path {
          var k :| k <= p && Known(s, k);
          assert Known(s', k);
        }
      }
      match ExistingFor(DepthsOf(s.directories), path, maxDepth) {
        case Some(key) => RegisterWithinRemembers(s', key, path, maxDepth, filter, fs);
        case None => RegisterNewRemembers(s', path, maxDepth, filter, fs);
      }
    }
  }

  /** Deleting a directory that is stored under the deleted path leaves the path pending. */
  lemma DeleteKnows(s: FileCache, path: Path, key: Path)
    requires Known(s, key) && (forall k | Known(s, k) :: k in s.registered)
    ensures Known(HandleDelete(s, path).0, key)
  {
    if key == path && key in s.directories {
      assert path in s.registered;
    }
  }

  lemma DeleteKnowsNoMore(s: FileCache, path: Path, key: Path)
    requires Known(HandleDelete(s, path).0, key) && (forall k | Known(s, k) :: k in s.registered)
    ensures key in s.registered
  {
    assert key != path ==> Known(s, key);
  }

  lemma DeleteRemembers(s: FileCache, path: Path)
    requires NothingForgotten(s)
    ensures NothingForgotten(HandleDelete(s, path).0)
  {
    var s' := HandleDelete(s, path).0;
    DeleteOk(s, path);
    forall key | Known(s', key)
      ensures key in s'.registered
    {
      DeleteKnowsNoMore(s, path, key);
    }
    forall p | p in s.registered
      ensures Remembers(s', p)
    {
      assert Remembers(s, p);
      var key :| key <= p && Known(s, key);
      DeleteKnows(s, path, key);
    }
  }

  lemma DeleteOk(s: FileCache, path: Path)
    requires StateOk(s)
    ensures StateOk(HandleDelete(s, path).0)
  {
    var s' := HandleDelete(s, path).0;
    forall key | key in s'.directories
      ensures Struct(s'.directories[key], key)
    {
      if key <= path {
        RemovePartsStruct(s.directories[key], key, Relativize(key, path));
      }
    }
  }

  lemma UpdateRemembers(s: FileCache, key: Path, tp: TypedPath, rescan: bool, filter: TypedPath -> bool, fs: Snapshot)
    requires NothingForgotten(s) && ValidAction(EventAction(tp, rescan, fs)) && tp.present
    requires key in s.directories && key <= tp.path.names
    ensures NothingForgotten(HandleUpdate(s, key, tp, rescan, filter, fs).0)
  {
    var accept := CacheFilter(filter, s.registered);
    var r := Update(s.directories[key], UpdatePath(tp), rescan, accept, fs);
    UpdateStruct(s.directories[key], key, UpdatePath(tp), rescan, accept, fs);
    var s' := s.(directories := s.directories[key := r.tree]);
    forall p | p in s.registered
      ensures Remembers(s', p)
    {
      var k :| k <= p && Known(s, k);
      assert Known(s', k);
    }
    if r.Threw? {
      DeleteRemembers(s', tp.path.names);
    }
  }

  lemma StoreRemembers(s: FileCache, path: Path, dir: Cached)
    requires NothingForgotten(s) && path in s.pending && Struct(dir, path)
    ensures NothingForgotten(StorePending(s, path, dir).0)
  {
    SameKnown(s, StorePending(s, path, dir).0);
  }

  /** Only what is known matters. */
  lemma SameKnown(s: FileCache, s': FileCache)
    requires NothingForgotten(s) && StateOk(s') && s'.registered == s.registered
    requires s'.directories.Keys + s'.pending == s.directories.Keys + s.pending
    ensures NothingForgotten(s')
  {
    forall key
      ensures Known(s', key) <==> Known(s, key)
    {
      assert key in s.directories.Keys + s.pending <==> key in s'.directories.Keys + s'.pending;
    }
    forall p | p in s.registered
      ensures Remembers(s', p)
    {
      assert Remembers(s, p);
      var key :| key <= p && Known(s, key);
      assert Known(s', key);
    }
  }

  lemma PendingRemembers(s: FileCache, path: Path, depth: int, filter: TypedPath -> bool, fs: Snapshot)
    requires NothingForgotten(s) && path in s.pending && |path| <= MAX_INT && WellFormed(fs.root, [])
    requires depth <= MAX_INT
    ensures NothingForgotten(HandlePending(s, path, depth, filter, fs).0)
  {
    PendingIs(s, path, depth, filter, fs);
    var accept := CacheFilter(filter, s.registered);
    var result := HandlePending(s, path, depth, filter, fs).0;
    if result != s {
      var d := if result == StorePending(s, path, ScanOf(fs, path, depth, accept)).0 then depth else -1;
      ScanStruct(fs, path, d, accept);
      StoreRemembers(s, path, ScanOf(fs, path, d, accept));
    }
  }

  lemma PendingIs(s: FileCache, path: Path, depth: int, filter: TypedPath -> bool, fs: Snapshot)
    requires path in s.pending
    ensures var accept := CacheFilter(filter, s.registered);
            var result := HandlePending(s, path, depth, filter, fs).0;
            || result == s || result == StorePending(s, path, ScanOf(fs, path, depth, accept)).0
            || result == StorePending(s, path, ScanOf(fs, path, -1, accept)).0
  {
    assert s.pending + {path} == s.pending;
  }

  lemma ActRemembers(s: FileCache, action: Action, filter: TypedPath -> bool)
    requires NothingForgotten(s) && ValidAction(action)
    ensures NothingForgotten(Act(s, action, filter))
  {
    match action {
      case RegisterAction(path, maxDepth, fs) => RegisterRemembers(s, path, maxDepth, filter, fs);
      case EventAction(tp, rescan, fs) =>
        var path := tp.path.names;
        if !tp.present {
          DeleteRemembers(s, path);
        } else {
          match FindKey(DepthsOf(s.directories), path) {
            case Some(key) => UpdateRemembers(s, key, tp, rescan, filter, fs);
            case None => if path in s.pending { PendingRemembers(s, path, DepthFor(s.registered, path), filter, fs); }
          }
        }
    }
  }

  lemma RunAction(states: seq<FileCache>, actions: seq<Action>, filter: TypedPath -> bool, i: nat)
    requires IsRun(states, actions, filter) && i < |actions| && NothingForgotten(states[i])
    ensures NothingForgotten(states[i + 1])
  {
    assert ValidAction(actions[i]) && IsStep(states[i], actions[i], filter, states[i + 1]);
    ActRemembers(states[i], actions[i], filter);
  }

  /** No registered path is forgotten, and nothing is cached or awaited that was not registered. */
  lemma {:induction false} RunsRemember(states: seq<FileCache>, actions: seq<Action>, filter: TypedPath -> bool, i: nat)
    requires IsRun(states, actions, filter) && i <= |actions|
    ensures NothingForgotten(states[i])
    decreases i
  {
    if i > 0 {
      RunsRemember(states, actions, filter, i - 1);
      RunAction(states, actions, filter, i - 1);
    }
  }

  // ----- what a new path is stored as

  /** How a path that is stored is found: to the depth asked for, or as itself when it is no directory. */
  function Appeared(fs: Snapshot, path: Path, depth: int, accept: TypedPath -> bool): Cached {
    ScanOf(fs, path, if ListDirectory(fs, path).Failed? then Min(depth, -1) else depth, accept)
  }

  /** Whether it is stored: not when it is missing, or cannot be read. */
  predicate Appears(fs: Snapshot, path: Path, depth: int) {
    depth < 0 || ListDirectory(fs, path).Children? || ListDirectory(fs, path) == Failed(NotDirectory)
  }

  /** What is stored for a path that is no directory holds its entry and nothing else. */
  lemma AppearedAlone(fs: Snapshot, path: Path, depth: int, accept: TypedPath -> bool)
    requires NodeAt(fs.root, path).Some? && !NodeAt(fs.root, path).value.Folder?
    ensures var dir, own := Appeared(fs, path, depth, accept), Entry(Stat(fs, path), fs.convert(path));
            && Appears(fs, path, depth) && dir.depth == Min(depth, -1) && dir.entry == own
            && forall q :: Look(dir, q) == if q == path then Some(own) else None
  {
    var dir := Appeared(fs, path, depth, accept);
    assert dir.files == map[] && dir.subs == map[];
    forall q
      ensures Look(dir, q) == if q == path then Some(dir.entry) else None
    {
      if path <= q { assert q == path <==> q[|path|..] == []; }
    }
  }

  /** What a registration that no stored directory answers makes of the stored directories and the awaited paths: a
      directory is stored to the depth, anything else as itself, and a path that is missing or cannot be read
      is awaited. Only what lies below the path is dropped. */
  ghost predicate StoresNew(s: FileCache, s': FileCache, path: Path, depth: int, accept: TypedPath -> bool,
                            fs: Snapshot)
  {
    && (forall key <- s'.directories :: key != path ==>
          key in s.directories && s'.directories[key] == s.directories[key])
    && (forall key <- s.directories :: !(path < key) ==> key in s'.directories)
    && if Appears(fs, path, depth) then
         && path in s'.directories && s'.directories[path] == Appeared(fs, path, depth, accept)
         && s'.pending == s.pending
       else
         && (path in s'.directories ==> path in s.directories && s'.directories[path] == s.directories[path])
         && s'.pending == s.pending + {path}
  }

  lemma NewStores(s: FileCache, path: Path, maxDepth: int, filter: TypedPath -> bool, fs: Snapshot)
    ensures StoresNew(s, RegisterNew(s, path, maxDepth, filter, fs).0, path, maxDepth,
                      CacheFilter(filter, s.registered), fs)
  {
  }

  /** A path that is newly registered, or deeper, and that no stored directory caches deep enough. */
  lemma RegisterStores(s: FileCache, path: Path, maxDepth: int, filter: TypedPath -> bool, fs: Snapshot)
    requires StateOk(s) && !Recorded(s.registered, path, maxDepth)
    requires ExistingFor(DepthsOf(s.directories), path, maxDepth).None?
    ensures var s' := Register(s, path, maxDepth, true, filter, fs).0;
            && s'.registered == s.registered[path := maxDepth]
            && StoresNew(s, s', path, maxDepth, CacheFilter(filter, s'.registered), fs)
  {
    NewStores(s.(registered := s.registered[path := maxDepth]), path, maxDepth, filter, fs);
    NewKeepsRegistered(s.(registered := s.registered[path := maxDepth]), path, maxDepth, filter, fs);
  }

  /** What a successful registration returns: the stored directory that answers for the path from now on, or the
      path alone when it is awaited. */
  lemma RegisterReturns(s: FileCache, path: Path, maxDepth: int, filter: TypedPath -> bool, fs: Snapshot)
    requires StateOk(s) && Register(s, path, maxDepth, true, filter, fs).1.Registered?
    ensures var (s', result) := Register(s, path, maxDepth, true, filter, fs);
            match ExistingFor(DepthsOf(s.directories), path, maxDepth)
            case Some(key) => key in s'.directories && result.dir == s'.directories[key]
            case None =>
              if Appears(fs, path, maxDepth) then path in s'.directories && result.dir == s'.directories[path]
              else result.dir.entry == Entry(Stat(fs, path), fs.convert(path)) && result.dir.depth == -1
                   && result.dir.files == map[] && result.dir.subs == map[]
  {
    var s1 := s.(registered := s.registered[path := maxDepth]);
    match ExistingFor(DepthsOf(s.directories), path, maxDepth) {
      case Some(key) => WithinReturns(s1, key, path, maxDepth, filter, fs);
      case None => NewReturns(s1, path, maxDepth, filter, fs);
    }
  }

  lemma WithinReturns(s: FileCache, key: Path, path: Path, maxDepth: int, filter: TypedPath -> bool, fs: Snapshot)
    requires key in s.directories && PathOf(s.directories[key].entry) == key <= path
    ensures var (s', result) := RegisterWithin(s, key, path, maxDepth, filter, fs);
            result.Registered? ==> key in s'.directories && result.dir == s'.directories[key]
  {
  }

  lemma NewReturns(s: FileCache, path: Path, maxDepth: int, filter: TypedPath -> bool, fs: Snapshot)
    ensures var (s', result) := RegisterNew(s, path, maxDepth, filter, fs);
            && result.Registered?
            && if Appears(fs, path, maxDepth) then path in s'.directories && result.dir == s'.directories[path]
               else result.dir.entry == Entry(Stat(fs, path), fs.convert(path)) && result.dir.depth == -1
                    && result.dir.files == map[] && result.dir.subs == map[]
  {
  }

  lemma NewKeepsRegistered(s: FileCache, path: Path, maxDepth: int, filter: TypedPath -> bool, fs: Snapshot)
    ensures RegisterNew(s, path, maxDepth, filter, fs).0.registered == s.registered
  {
  }

  // ----- what remembering does not give

  /** A path that was missing when it was registered and has appeared as a readable directory is covered
      to its registered depth if and only if `find` had no directory for it, or it was covered before:
      below a cached directory that reaches it the pending paths are never consulted. */
  lemma PendingResolved(s: FileCache, tp: TypedPath, rescan: bool, filter: TypedPath -> bool, fs: Snapshot)
    requires NothingForgotten(s) && DepthsOk(s.registered) && ValidAction(EventAction(tp, rescan, fs)) && tp.present
    requires tp.path.names in s.pending && tp.path.names !in s.directories
    requires ListDirectory(fs, tp.path.names).Children?
    ensures var s', path := HandleEvent(s, tp, rescan, filter, fs).0, tp.path.names;
            && path in s.registered
            && (CoveredAt(DepthsOf(s'.directories), path, s.registered[path])
                <==> || FindKey(DepthsOf(s.directories), path).None?
                     || CoveredAt(DepthsOf(s.directories), path, s.registered[path]))
  {
    var path := tp.path.names;
    assert Known(s, path);
    if FindKey(DepthsOf(s.directories), path).Some? {
      FoundKeepsDepths(s, tp, rescan, filter, fs);
    } else {
      OwnDirectoryCovers(s, path, filter, fs);
    }
  }

  /** The directory of a pending path caches at least what is registered for it. */
  lemma OwnDirectoryCovers(s: FileCache, path: Path, filter: TypedPath -> bool, fs: Snapshot)
    requires path in s.registered && DepthsOk(s.registered) && WellFormed(fs.root, [])
    requires ListDirectory(fs, path).Children?
    ensures var s' := HandlePending(s, path, DepthFor(s.registered, path), filter, fs).0;
            CoveredAt(DepthsOf(s'.directories), path, s.registered[path])
  {
    var depth, accept := DepthFor(s.registered, path), CacheFilter(filter, s.registered);
    var s' := HandlePending(s, path, depth, filter, fs).0;
    assert Remaining(s.registered[path], path, path) == s.registered[path] <= depth;
    ScanStruct(fs, path, depth, accept);
    assert s'.directories == s.directories[path := ScanOf(fs, path, depth, accept)];
    assert Covers(DepthsOf(s'.directories)[path], path, path, s.registered[path]);
  }

  /** An event for a path that `find` has another directory for changes no depth, and nothing that
      is pending. */
  lemma FoundKeepsDepths(s: FileCache, tp: TypedPath, rescan: bool, filter: TypedPath -> bool, fs: Snapshot)
    requires StateOk(s) && ValidAction(EventAction(tp, rescan, fs)) && tp.present
    requires tp.path.names !in s.directories && FindKey(DepthsOf(s.directories), tp.path.names).Some?
    ensures var s' := HandleEvent(s, tp, rescan, filter, fs).0;
            && DepthsOf(s'.directories) == DepthsOf(s.directories)
            && s'.pending == s.pending && s'.registered == s.registered
  {
    var key := FindKey(DepthsOf(s.directories), tp.path.names).value;
    var accept := CacheFilter(filter, s.registered);
    UpdateStruct(s.directories[key], key, UpdatePath(tp), rescan, accept, fs);
    SameDepths(s.directories, key, Update(s.directories[key], UpdatePath(tp), rescan, accept, fs).tree);
  }

  /** Every event is for an existing path that `find` has another directory for. */
  ghost predicate EventsFound(s: FileCache, actions: seq<Action>) {
    forall i | 0 <= i < |actions| ::
      && actions[i].EventAction? && ValidAction(actions[i]) && actions[i].tp.present
      && actions[i].tp.path.names !in s.directories
      && FindKey(DepthsOf(s.directories), actions[i].tp.path.names).Some?
  }

  ghost predicate AreSteps(states: seq<FileCache>, actions: seq<Action>, filter: TypedPath -> bool) {
    && |states| == |actions| + 1
    && forall i | 0 <= i < |actions| :: IsStep(states[i], actions[i], filter, states[i + 1])
  }

  /** However many such events follow, what is uncovered stays uncovered. */
  lemma {:induction false} StaysUncovered(states: seq<FileCache>, actions: seq<Action>, filter: TypedPath -> bool,
                                          i: nat)
    requires AreSteps(states, actions, filter) && EventsFound(states[0], actions) && i <= |actions|
    ensures DepthsOf(states[i].directories) == DepthsOf(states[0].directories)
    ensures states[i].registered == states[0].registered && states[i].pending == states[0].pending
    ensures AllCovered(states[i].registered, DepthsOf(states[i].directories))
       <==> AllCovered(states[0].registered, DepthsOf(states[0].directories))
    decreases i
  {
    if i > 0 {
      StaysUncovered(states, actions, filter, i - 1);
      OneFound(states, actions, filter, i - 1);
    }
  }

  lemma OneFound(states: seq<FileCache>, actions: seq<Action>, filter: TypedPath -> bool, i: nat)
    requires AreSteps(states, actions, filter) && EventsFound(states[0], actions) && i < |actions|
    requires DepthsOf(states[i].directories) == DepthsOf(states[0].directories)
    ensures DepthsOf(states[i + 1].directories) == DepthsOf(states[i].directories)
    ensures states[i + 1].registered == states[i].registered && states[i + 1].pending == states[i].pending
  {
    var action := actions[i];
    assert IsStep(states[i], action, filter, states[i + 1]);
    assert DepthsOf(states[i].directories).Keys == states[i].directories.Keys;
    assert DepthsOf(states[0].directories).Keys == states[0].directories.Keys;
    FoundKeepsDepths(states[i], action.tp, action.rescan, filter, action.fs);
  }

  ghost predicate ShallowAbove(s: FileCache, a: Name) {
    StateOk(s) && DepthsOf(s.directories) == map[[a] := 0]
  }

  lemma FirstRegistered(a: Name, filter: TypedPath -> bool, fs: Snapshot)
    requires a != NoName && WellFormed(fs.root, []) && ListDirectory(fs, [a]).Children?
    ensures var s := Register(FileCache(map[], map[], {}), [a], 0, true, filter, fs).0;
            ShallowAbove(s, a) && s.registered == map[[a] := 0] && s.pending == {}
  {
    var s := FileCache(map[[a] := 0], map[], {});
    assert FileCache(map[], map[], {}).registered[[a] := 0] == s.registered;
    NewStep(s, Registration([a], 0, fs), filter);
    assert DepthsOf(map[]) == map[];
    assert !Redundant(0, [a], [a], 0);
  }

  lemma MissingRegistered(s: FileCache, a: Name, b: Name, depth: int, filter: TypedPath -> bool, fs: Snapshot)
    requires ShallowAbove(s, a) && 0 <= depth <= MAX_INT && [a, b] !in s.registered
    requires ListDirectory(fs, [a, b]) == Failed(NoSuchFile)
    ensures var s' := Register(s, [a, b], depth, true, filter, fs).0;
            && ShallowAbove(s', a)
            && s'.registered == s.registered[[a, b] := depth] && s'.pending == s.pending + {[a, b]}
  {
    ExceedsMeans(0, [a], [a, b], depth);
    assert ExistingFor(DepthsOf(s.directories), [a, b], depth).None?;
    var s1 := s.(registered := s.registered[[a, b] := depth]);
    assert RegisterNew(s1, [a, b], depth, filter, fs).0
        == s1.(directories := Cleanup(s.directories, [a, b], depth), pending := s.pending + {[a, b]});
    CleanupNothing(s, a, b, depth);
  }

  lemma CleanupNothing(s: FileCache, a: Name, b: Name, depth: int)
    requires ShallowAbove(s, a)
    ensures Cleanup(s.directories, [a, b], depth) == s.directories
  {
    assert !([a, b] < [a]);
    forall key | key in s.directories
      ensures key == [a]
    {
      assert key in DepthsOf(s.directories);
    }
  }

  /** So a registered depth can stay uncovered: a path is registered with depth 0, then a missing child of
      it with some depth, and then the child appears as a directory. */
  lemma PendingOverlooked(a: Name, b: Name, depth: int, filter: TypedPath -> bool, rescan: bool, before: Snapshot,
                          after: Snapshot)
    requires Proper([a, b]) && 0 <= depth <= MAX_INT && WellFormed(before.root, []) && WellFormed(after.root, [])
    requires ListDirectory(before, [a]).Children? && ListDirectory(before, [a, b]) == Failed(NoSuchFile)
    requires ListDirectory(after, [a, b]).Children?
    ensures var s1 := Register(FileCache(map[], map[], {}), [a], 0, true, filter, before).0;
            && StateOk(s1)
            && var s2 := Register(s1, [a, b], depth, true, filter, before).0;
            && StateOk(s2)
            && var s3 := HandleEvent(s2, TypedPath(Abs([a, b]), true, DIRECTORY), rescan, filter, after).0;
            && [a, b] in s3.pending && [a, b] in s3.registered && s3.registered[[a, b]] == depth
            && !AllCovered(s3.registered, DepthsOf(s3.directories))
  {
    assert a in [a, b] && b in [a, b] && Proper([a]);
    FirstRegistered(a, filter, before);
    var s1 := Register(FileCache(map[], map[], {}), [a], 0, true, filter, before).0;
    MissingRegistered(s1, a, b, depth, filter, before);
    var s2 := Register(s1, [a, b], depth, true, filter, before).0;
    ChildAppears(s2, a, b, depth, filter, rescan, after);
  }

  lemma ChildAppears(s: FileCache, a: Name, b: Name, depth: int, filter: TypedPath -> bool, rescan: bool, fs: Snapshot)
    requires ShallowAbove(s, a) && [a, b] in s.registered && s.registered[[a, b]] == depth >= 0
    requires Proper([a, b]) && WellFormed(fs.root, [])
    ensures var s' := HandleEvent(s, TypedPath(Abs([a, b]), true, DIRECTORY), rescan, filter, fs).0;
            && s'.pending == s.pending && s'.registered == s.registered
            && !AllCovered(s'.registered, DepthsOf(s'.directories))
  {
    assert [a] in DepthsOf(s.directories) && Reaches(0, [a], [a, b]) && [a, b] !in DepthsOf(s.directories);
    FoundKeepsDepths(s, TypedPath(Abs([a, b]), true, DIRECTORY), rescan, filter, fs);
    assert !Covers(0, [a], [a, b], depth);
  }
}
