/** What one registration or event leaves to be found in the cached directories, for every filter. */
module FileCacheFinds {
  import opened Wrappers
  import opened Entries
  import opened Snapshots
  import opened CacheTree
  import opened CacheInvariants
  import opened CacheListing
  import opened CacheUpdates
  import opened CacheRuns
  import opened CacheFinds
  import opened DirectoryRegistries
  import opened FileCacheTree
  import opened FileCacheCoverage
  import opened FileCacheRemembers
  import opened FileCacheEvents

  /** What is found at `x` after an update of the directory `dir` with the path `tp`, where it enters at `i`. */
  function FoundAfter(dir: Cached, key: Path, tp: TypedPath, rescan: bool, accept: TypedPath -> bool, fs: Snapshot,
                      i: nat, x: Path): Option<Entry>
    requires key < tp.path.names && Enters(dir, tp.path.names[|key|..], i)
  {
    var parts, at := tp.path.names[|key|..], tp.path.names[..|key| + i];
    if at <= x then
      FindsHere(DirAt(dir, parts[..i - 1]).value, at, DirAt(dir, parts).Some?, at == tp.path.names, tp, rescan, accept,
                fs, Look(dir, x), x[|at|..])
    else Look(dir, x)
  }

  // ----- register

  /** The typed path that `register` reads, of an existing path, passes the filter when the caller's lets it. */
  lemma RegisteredPasses(reg: Registered, path: Path, filter: TypedPath -> bool, fs: Snapshot)
    requires path in reg && filter(Stat(fs, path))
    ensures CacheFilter(filter, reg)(Stat(fs, path))
  {
    assert AcceptedBy(path, reg[path], path);
  }

  lemma WithinStores(s: FileCache, path: Path, maxDepth: int, filter: TypedPath -> bool, fs: Snapshot, key: Path)
    requires StateOk(s) && !Recorded(s.registered, path, maxDepth)
    requires ExistingFor(DepthsOf(s.directories), path, maxDepth) == Some(key)
    ensures var s' := Register(s, path, maxDepth, true, filter, fs).0;
            && s'.registered == s.registered[path := maxDepth] && key in s'.directories
            && PathOf(s.directories[key].entry) == key
            && s'.directories[key] == Update(s.directories[key], Stat(fs, path), true,
                                             CacheFilter(filter, s'.registered), fs).tree
  {
  }

  /** Registering a path that a stored directory caches deep enough already, rescans the path there: below it
      is found what a scan finds now. */
  lemma RegisterRescans(s: FileCache, path: Path, maxDepth: int, filter: TypedPath -> bool, fs: Snapshot, key: Path,
                        i: nat, x: Path)
    requires StateOk(s) && ValidAction(RegisterAction(path, maxDepth, fs)) && !Recorded(s.registered, path, maxDepth)
    requires ExistingFor(DepthsOf(s.directories), path, maxDepth) == Some(key)
    requires NodeAt(fs.root, path).Some? && filter(Stat(fs, path))
    requires key < path ==> Enters(s.directories[key], path[|key|..], i)
    ensures var s', dir := Register(s, path, maxDepth, true, filter, fs).0, s.directories[key];
            && key in s'.directories
            && var accept := CacheFilter(filter, s'.registered);
               if key < path then
                 Look(s'.directories[key], x) == FoundAfter(dir, key, Stat(fs, path), true, accept, fs, i, x)
               else path < x && IsDirectory(Stat(fs, path)) ==>
                 Look(s'.directories[key], x) == ScanFinds(fs, path, dir.depth, accept, x[|path|..])
  {
    var dir, tp := s.directories[key], Stat(fs, path);
    WithinStores(s, path, maxDepth, filter, fs, key);
    RegisteredPasses(s.registered[path := maxDepth], path, filter, fs);
    var accept := CacheFilter(filter, s.registered[path := maxDepth]);
    if key < path {
      UpdateFinds(dir, key, tp, true, accept, fs, i, x);
    } else if path < x && IsDirectory(tp) {
      RescanFinds(dir, key, tp, accept, fs, x);
    }
  }

  // ----- events

  /** An event for a path below the directory that `find` takes for it. */
  lemma EventFinds(s: FileCache, tp: TypedPath, rescan: bool, filter: TypedPath -> bool, fs: Snapshot, key: Path,
                   i: nat, x: Path)
    requires StateOk(s) && ValidAction(EventAction(tp, rescan, fs)) && tp.present
    requires FindKey(DepthsOf(s.directories), tp.path.names) == Some(key) && key < tp.path.names
    requires Enters(s.directories[key], tp.path.names[|key|..], i)
    ensures var s', given := HandleEvent(s, tp, rescan, filter, fs).0, UpdatePath(tp);
            var accept := CacheFilter(filter, s.registered);
            && s' == s.(directories := s.directories[key := s'.directories[key]])
            && Look(s'.directories[key], x)
               == if accept(given) then FoundAfter(s.directories[key], key, given, rescan, accept, fs, i, x)
                  else Look(s.directories[key], x)
  {
    var given, accept := UpdatePath(tp), CacheFilter(filter, s.registered);
    if accept(given) { UpdateFinds(s.directories[key], key, given, rescan, accept, fs, i, x); }
  }

  /** A symbolic link is stored as a link, whatever it leads to, and nothing is looked for below it. */
  lemma LinkFinds(s: FileCache, tp: TypedPath, rescan: bool, filter: TypedPath -> bool, fs: Snapshot, key: Path,
                  x: Path)
    requires StateOk(s) && ValidAction(EventAction(tp, rescan, fs)) && tp.present && tp.kind.link
    requires FindKey(DepthsOf(s.directories), tp.path.names) == Some(key) && key < tp.path.names
    requires var parts := tp.path.names[|key|..];
             && DirAt(s.directories[key], parts[..|parts| - 1]).Some? && DirAt(s.directories[key], parts).None?
             && DirAt(s.directories[key], parts[..|parts| - 1]).value.depth >= 0
    requires var link := TypedPath(tp.path, true, LINK); filter(link) && Accepts(s.registered, link.path.names)
    ensures var s' := HandleEvent(s, tp, rescan, filter, fs).0;
            && key in s'.directories
            && Look(s'.directories[key], x)
               == if x == tp.path.names then Some(Entry(TypedPath(Abs(x), true, LINK), fs.convert(x)))
                  else Look(s.directories[key], x)
  {
    var path := tp.path.names;
    LinkFoundAfter(s.directories[key], key, UpdatePath(tp), rescan, CacheFilter(filter, s.registered), fs, x);
    EventFinds(s, tp, rescan, filter, fs, key, |path| - |key|, x);
  }

  lemma LinkFoundAfter(dir: Cached, key: Path, tp: TypedPath, rescan: bool, accept: TypedPath -> bool, fs: Snapshot,
                       x: Path)
    requires key < tp.path.names && tp.kind == LINK
    requires var parts := tp.path.names[|key|..];
             && DirAt(dir, parts[..|parts| - 1]).Some? && DirAt(dir, parts).None?
             && DirAt(dir, parts[..|parts| - 1]).value.depth >= 0
    ensures var path := tp.path.names;
            && Enters(dir, path[|key|..], |path| - |key|)
            && FoundAfter(dir, key, tp, rescan, accept, fs, |path| - |key|, x)
               == if x == path then Some(Entry(tp, fs.convert(x))) else Look(dir, x)
  {
    var path := tp.path.names;
    assert path[..|path|] == path;
    if path <= x { assert x[|path|..] == [] <==> x == path; }
  }

  // ----- the directories of a path watcher

  /** Whatever an update newly caches in a watcher root is a directory, not a link, that `acceptPrefix` accepts. */
  lemma WatcherRootGains(c: Cached, path: Path, tp: TypedPath, rescan: bool, reg: Registered, fs: Snapshot, x: Path)
    requires Struct(c, path) && ValidCall(path, tp, fs) && path < x
    requires Look(c, x).None? && Look(Update(c, tp, rescan, WatcherFilter(reg), fs).tree, x).Some?
    ensures IsDirectory(Look(Update(c, tp, rescan, WatcherFilter(reg), fs).tree, x).value.tp) && AcceptsPrefix(reg, x)
  {
    var tree := Update(c, tp, rescan, WatcherFilter(reg), fs).tree;
    UpdateStruct(c, path, tp, rescan, WatcherFilter(reg), fs);
    LookKeyed(tree, path, x);
    OnlyAccepted(c, path, tp, rescan, WatcherFilter(reg), fs, x);
    if x < tp.path.names { PrefixesClosed(reg, x, tp.path.names); }
  }

  // ----- nothing else

  function PathOfAction(action: Action): Path {
    match action
    case RegisterAction(path, _, _) => path
    case EventAction(tp, _, _) => tp.path.names
  }

  /** The caller's filter and the registry accept the entry at `x`, or it is a directory on the way to `path`. */
  ghost predicate Wanted(reg: Registered, filter: TypedPath -> bool, path: Path, x: Path, e: Entry) {
    (filter(e.tp) && Accepts(reg, x)) || (x < path && IsDirectory(e.tp))
  }

  /** The directory holds nothing new at `x` that is not wanted. */
  ghost predicate NothingUnwanted(before: FileCache, s: FileCache, filter: TypedPath -> bool, path: Path, key: Path,
                                  x: Path)
    requires key in s.directories
  {
    Look(s.directories[key], x).Some? && (key in before.directories ==> Look(before.directories[key], x).None?)
    ==> Wanted(s.registered, filter, path, x, Look(s.directories[key], x).value)
  }

  lemma NewWanted(fs: Snapshot, path: Path, depth: int, filter: TypedPath -> bool, reg: Registered, x: Path)
    requires WellFormed(fs.root, []) && |path| <= MAX_INT && depth <= MAX_INT && path < x
    ensures var dir := ScanOf(fs, path, depth, CacheFilter(filter, reg));
            Look(dir, x).Some? ==> Wanted(reg, filter, path, x, Look(dir, x).value)
  {
    var accept := CacheFilter(filter, reg);
    var dir := ScanOf(fs, path, depth, accept);
    if Look(dir, x).Some? {
      ScanStruct(fs, path, depth, accept);
      LookKeyed(dir, path, x);
      InitFinds(fs, Entry(Stat(fs, path), fs.convert(path)), depth, accept, x[|path|..]);
      ScanAccepted(fs, path, depth, accept, x[|path|..]);
    }
  }

  lemma UpdateWanted(dir: Cached, key: Path, tp: TypedPath, rescan: bool, filter: TypedPath -> bool, reg: Registered,
                     fs: Snapshot, x: Path)
    requires Struct(dir, key) && ValidCall(key, tp, fs) && key < x
    ensures var tree := Update(dir, tp, rescan, CacheFilter(filter, reg), fs).tree;
            Look(dir, x).None? && Look(tree, x).Some?
            ==> Wanted(reg, filter, tp.path.names, x, Look(tree, x).value)
  {
    var accept := CacheFilter(filter, reg);
    var tree := Update(dir, tp, rescan, accept, fs).tree;
    if Look(dir, x).None? && Look(tree, x).Some? {
      UpdateStruct(dir, key, tp, rescan, accept, fs);
      LookKeyed(tree, key, x);
      OnlyAccepted(dir, key, tp, rescan, accept, fs, x);
    }
  }

  lemma DeleteAddsNothing(s: FileCache, path: Path, key: Path, x: Path)
    requires StateOk(s) && key in HandleDelete(s, path).0.directories
    ensures key in s.directories
    ensures Look(HandleDelete(s, path).0.directories[key], x).Some? ==> Look(s.directories[key], x).Some?
  {
    NoneAdded(s.directories[key], key, path, x);
  }

  lemma RegisterWanted(s: FileCache, path: Path, maxDepth: int, filter: TypedPath -> bool, fs: Snapshot, key: Path,
                       x: Path)
    requires StateOk(s) && ValidAction(RegisterAction(path, maxDepth, fs)) && key < x
    requires key in Register(s, path, maxDepth, true, filter, fs).0.directories
    ensures NothingUnwanted(s, Register(s, path, maxDepth, true, filter, fs).0, filter, path, key, x)
  {
    if !Recorded(s.registered, path, maxDepth) {
      var reg := s.registered[path := maxDepth];
      match ExistingFor(DepthsOf(s.directories), path, maxDepth) {
        case Some(k) => WithinWanted(s, path, maxDepth, filter, fs, k, key, x);
        case None =>
          RegisterStores(s, path, maxDepth, filter, fs);
          if key == path {
            var depth := if ListDirectory(fs, path).Failed? then Min(maxDepth, -1) else maxDepth;
            NewWanted(fs, path, depth, filter, reg, x);
          }
      }
    }
  }

  lemma WithinWanted(s: FileCache, path: Path, maxDepth: int, filter: TypedPath -> bool, fs: Snapshot, k: Path,
                     key: Path, x: Path)
    requires StateOk(s) && ValidAction(RegisterAction(path, maxDepth, fs)) && key < x
    requires !Recorded(s.registered, path, maxDepth)
    requires ExistingFor(DepthsOf(s.directories), path, maxDepth) == Some(k)
    requires key in Register(s, path, maxDepth, true, filter, fs).0.directories
    ensures NothingUnwanted(s, Register(s, path, maxDepth, true, filter, fs).0, filter, path, key, x)
  {
    WithinOthers(s, path, maxDepth, filter, fs, k);
    WithinStores(s, path, maxDepth, filter, fs, k);
    OneUpdated(s, Register(s, path, maxDepth, true, filter, fs).0, path, filter, fs, k, key, x);
  }

  lemma OneUpdated(s: FileCache, s': FileCache, path: Path, filter: TypedPath -> bool, fs: Snapshot, k: Path,
                   key: Path, x: Path)
    requires StateOk(s) && ValidAction(RegisterAction(path, 0, fs)) && key in s'.directories && key < x
    requires k in s.directories && k <= path && PathOf(s.directories[k].entry) == k
    requires if key == k then
               s'.directories[k]
               == Update(s.directories[k], Stat(fs, path), true, CacheFilter(filter, s'.registered), fs).tree
             else key in s.directories && s'.directories[key] == s.directories[key]
    ensures NothingUnwanted(s, s', filter, path, key, x)
  {
    if key == k { UpdateWanted(s.directories[k], k, Stat(fs, path), true, filter, s'.registered, fs, x); }
  }

  lemma WithinOthers(s: FileCache, path: Path, maxDepth: int, filter: TypedPath -> bool, fs: Snapshot, k: Path)
    requires StateOk(s) && !Recorded(s.registered, path, maxDepth)
    requires ExistingFor(DepthsOf(s.directories), path, maxDepth) == Some(k)
    ensures var s' := Register(s, path, maxDepth, true, filter, fs).0;
            forall key <- s'.directories ::
              key in s.directories && (key != k ==> s'.directories[key] == s.directories[key])
  {
  }

  lemma EventWanted(s: FileCache, tp: TypedPath, rescan: bool, filter: TypedPath -> bool, fs: Snapshot, key: Path,
                    x: Path)
    requires StateOk(s) && ValidAction(EventAction(tp, rescan, fs)) && key < x
    requires key in HandleEvent(s, tp, rescan, filter, fs).0.directories
    ensures NothingUnwanted(s, HandleEvent(s, tp, rescan, filter, fs).0, filter, tp.path.names, key, x)
  {
    var path := tp.path.names;
    if !tp.present {
      DeleteAddsNothing(s, path, key, x);
    } else {
      match FindKey(DepthsOf(s.directories), path) {
        case Some(k) => FoundWanted(s, k, tp, rescan, filter, fs, key, x);
        case None => if path in s.pending && key == path { PendingWanted(s, tp, filter, fs, x); }
      }
    }
  }

  lemma FoundWanted(s: FileCache, k: Path, tp: TypedPath, rescan: bool, filter: TypedPath -> bool, fs: Snapshot,
                    key: Path, x: Path)
    requires StateOk(s) && ValidAction(EventAction(tp, rescan, fs)) && key < x
    requires k in s.directories && k <= tp.path.names && PathOf(s.directories[k].entry) == k
    requires key in HandleUpdate(s, k, tp, rescan, filter, fs).0.directories
    ensures NothingUnwanted(s, HandleUpdate(s, k, tp, rescan, filter, fs).0, filter, tp.path.names, key, x)
  {
    var given := UpdatePath(tp);
    var r := Update(s.directories[k], given, rescan, CacheFilter(filter, s.registered), fs);
    var s1 := s.(directories := s.directories[k := r.tree]);
    UpdateStruct(s.directories[k], k, given, rescan, CacheFilter(filter, s.registered), fs);
    if key == k { UpdateWanted(s.directories[k], k, given, rescan, filter, s.registered, fs, x); }
    if r.Threw? {
      ThrowsAtItself(s.directories[k], k, given, rescan, CacheFilter(filter, s.registered), fs);
      DeleteAddsNothing(s1, tp.path.names, key, x);
    }
  }

  lemma PendingWanted(s: FileCache, tp: TypedPath, filter: TypedPath -> bool, fs: Snapshot, x: Path)
    requires StateOk(s) && ValidAction(EventAction(tp, false, fs)) && tp.path.names < x
    requires FindKey(DepthsOf(s.directories), tp.path.names).None? && tp.path.names in s.pending
    ensures var path := tp.path.names;
            var s' := HandlePending(s, path, DepthFor(s.registered, path), filter, fs).0;
            path in s'.directories ==> NothingUnwanted(s, s', filter, path, path, x)
  {
    var path, depth := tp.path.names, DepthFor(s.registered, tp.path.names);
    PendingOutcome(s, path, depth, filter, fs);
    PendingNew(s, path);
    NewWanted(fs, path, if ListDirectory(fs, path).Failed? then Min(depth, -1) else depth, filter, s.registered, x);
  }

  /** No registration and no event newly caches, strictly below a stored directory, anything that the caller's
      filter or the registry rejects, but for the directories on the way to its own path. */
  lemma ActionWanted(s: FileCache, action: Action, filter: TypedPath -> bool, key: Path, x: Path)
    requires StateOk(s) && ValidAction(action) && key in Act(s, action, filter).directories && key < x
    ensures NothingUnwanted(s, Act(s, action, filter), filter, PathOfAction(action), key, x)
  {
    match action {
      case RegisterAction(path, maxDepth, fs) => RegisterWanted(s, path, maxDepth, filter, fs, key, x);
      case EventAction(tp, rescan, fs) => EventWanted(s, tp, rescan, filter, fs, key, x);
    }
  }
}
