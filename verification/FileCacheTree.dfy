/** The registration of cached directories as a value: what each operation of the class
    `FileCacheDirectoryTree` computes. */
module FileCacheTree {
  import opened Wrappers
  import opened Entries
  import opened Snapshots
  import opened CacheTree
  import opened CacheInvariants
  import opened CacheListing
  import opened DirectoryRegistries

  /** The registered paths, the cached directories by path, and the paths that were missing. */
  datatype FileCache = FileCache(registered: Registered, directories: map<Path, Cached>, pending: set<Path>)

  /** Every cached directory is a well-formed tree under its own key. */
  ghost predicate StateOk(s: FileCache) {
    forall key <- s.directories :: Struct(s.directories[key], key)
  }

  /** The filter of the cached directories: the caller's, and the registry's. */
  function CacheFilter(filter: TypedPath -> bool, reg: Registered): TypedPath -> bool {
    (tp: TypedPath) => filter(tp) && Accepts(reg, tp.path.names)
  }

  // ----- the depths of the cached directories

  type Depths = map<Path, int>

  function DepthsOf(directories: map<Path, Cached>): Depths {
    map key | key in directories :: directories[key].depth
  }

  /** `find` takes the directory `dir` for `path`. */
  predicate Reaches(depth: int, dir: Path, path: Path)
    requires dir <= path
  {
    depth == MAX_INT || path == dir || |Relativize(dir, path)| - 1 <= depth
  }

  /** `find`: the directory with the longest path that reaches `path`. */
  function FindKey(dirs: Depths, path: Path): (key: Option<Path>)
    ensures key.Some? ==> key.value in dirs && key.value <= path && Reaches(dirs[key.value], key.value, path)
    ensures forall k | k in dirs && k <= path && Reaches(dirs[k], k, path) :: key.Some? && k <= key.value
  {
    LongestFrom(dirs, path, |path|)
  }

  function LongestFrom(dirs: Depths, path: Path, n: nat): (key: Option<Path>)
    requires n <= |path|
    ensures key.Some? ==> key.value in dirs && key.value <= path && Reaches(dirs[key.value], key.value, path)
    ensures forall k | k in dirs && k <= path && |k| <= n && Reaches(dirs[k], k, path) ::
              key.Some? && k <= key.value
  {
    assert forall k | k <= path :: k == path[..|k|];
    if path[..n] in dirs && Reaches(dirs[path[..n]], path[..n], path) then Some(path[..n])
    else if n == 0 then None
    else LongestFrom(dirs, path, n - 1)
  }

  /** `register` leaves `path` to the directory `dir`: it caches more levels below `path` than are
      asked for, in int arithmetic. */
  predicate Exceeds(depth: int, dir: Path, path: Path, maxDepth: int)
    requires dir <= path
  {
    depth == MAX_INT || Wrap(depth - (|Relativize(dir, path)| - 1)) > maxDepth
  }

  /** The directory that `register` leaves the path to: the one with the shortest path. */
  function ExistingFor(dirs: Depths, path: Path, maxDepth: int): (key: Option<Path>)
    ensures key.Some? ==> key.value in dirs && key.value <= path && Exceeds(dirs[key.value], key.value, path, maxDepth)
    ensures forall k | k in dirs && k <= path && Exceeds(dirs[k], k, path, maxDepth) :: key.Some? && key.value <= k
  {
    ShortestFrom(dirs, path, maxDepth, 0)
  }

  function ShortestFrom(dirs: Depths, path: Path, maxDepth: int, n: nat): (key: Option<Path>)
    requires n <= |path|
    ensures key.Some? ==> key.value in dirs && key.value <= path && Exceeds(dirs[key.value], key.value, path, maxDepth)
    ensures forall k | k in dirs && k <= path && |k| >= n && Exceeds(dirs[k], k, path, maxDepth) ::
              key.Some? && key.value <= k
    decreases |path| - n
  {
    assert forall k | k <= path :: k == path[..|k|];
    if path[..n] in dirs && Exceeds(dirs[path[..n]], path[..n], path, maxDepth) then Some(path[..n])
    else if n == |path| then None
    else ShortestFrom(dirs, path, maxDepth, n + 1)
  }

  /** `cleanupDirectories` drops the directory `key` once `path` is cached to `maxDepth`. */
  predicate Redundant(depth: int, key: Path, path: Path, maxDepth: int) {
    path < key && (maxDepth == MAX_INT || Wrap(maxDepth - |Relativize(path, key)|) >= depth)
  }

  function Cleanup(directories: map<Path, Cached>, path: Path, maxDepth: int): map<Path, Cached> {
    map key | key in directories && !Redundant(directories[key].depth, key, path, maxDepth) :: directories[key]
  }

  // ----- register

  datatype NewDirectory = Created(dir: Cached) | NotCreated(error: ListError)

  /** `newCachedDirectory`: a directory that stays unreadable counts as missing. */
  function NewCachedDirectory(fs: Snapshot, path: Path, depth: int, accept: TypedPath -> bool): NewDirectory {
    var listing := ListDirectory(fs, path);
    if depth >= 0 && listing.Failed? then
      NotCreated(if listing.error == NotDirectory then NotDirectory else NoSuchFile)
    else Created(ScanOf(fs, path, depth, accept))
  }

  /** The tree of a new directory. */
  function ScanOf(fs: Snapshot, path: Path, depth: int, accept: TypedPath -> bool): Cached {
    InitAt(fs, Entry(Stat(fs, path), fs.convert(path)), depth, accept)
  }

  datatype RegisterResult =
    | NotAdded
    | NotWatched
    | UpdateFailed(error: ListError)
    | Registered(dir: Cached)

  /** `register`: `watched` says whether the path watcher accepts the path. */
  function Register(s: FileCache, path: Path, maxDepth: int, watched: bool, filter: TypedPath -> bool, fs: Snapshot)
    : (FileCache, RegisterResult)
    requires forall key <- s.directories :: PathOf(s.directories[key].entry) == key
  {
    if !Adds(s.registered, path, maxDepth) then (s, NotAdded)
    else
      var s' := s.(registered := s.registered[path := maxDepth]);
      if !watched then (s', NotWatched)
      else
        match ExistingFor(DepthsOf(s.directories), path, maxDepth)
        case Some(key) => RegisterWithin(s', key, path, maxDepth, filter, fs)
        case None => RegisterNew(s', path, maxDepth, filter, fs)
  }

  /** An existing directory is rescanned at the path. */
  function RegisterWithin(s: FileCache, key: Path, path: Path, maxDepth: int, filter: TypedPath -> bool, fs: Snapshot)
    : (FileCache, RegisterResult)
    requires key in s.directories && PathOf(s.directories[key].entry) <= path
  {
    var r := Update(s.directories[key], Stat(fs, path), true, CacheFilter(filter, s.registered), fs);
    var updated := s.(directories := s.directories[key := r.tree]);
    if r.Threw? then (updated, UpdateFailed(r.error))
    else (updated.(directories := Cleanup(updated.directories, path, maxDepth)), Registered(r.tree))
  }

  /** A new directory is stored, unless the path is missing: then it is pending. */
  function RegisterNew(s: FileCache, path: Path, maxDepth: int, filter: TypedPath -> bool, fs: Snapshot)
    : (FileCache, RegisterResult)
  {
    var accept := CacheFilter(filter, s.registered);
    match NewCachedDirectory(fs, path, maxDepth, accept)
    case Created(dir) => (s.(directories := Cleanup(s.directories[path := dir], path, maxDepth)), Registered(dir))
    case NotCreated(error) =>
      var leaf := ScanOf(fs, path, -1, accept);
      if error == NotDirectory then
        (s.(directories := Cleanup(s.directories[path := leaf], path, maxDepth)), Registered(leaf))
      else
        (s.(directories := Cleanup(s.directories, path, maxDepth), pending := s.pending + {path}), Registered(leaf))
  }

  // ----- events

  /** What the observers are told: as `Changes`, and to be replayed as recorded. */
  type Told = Changes

  ghost function HandleEvent(s: FileCache, tp: TypedPath, rescan: bool, filter: TypedPath -> bool, fs: Snapshot)
    : (FileCache, Told)
    requires forall key <- s.directories :: PathOf(s.directories[key].entry) == key
  {
    var path := tp.path.names;
    if !tp.present then HandleDelete(s, path)
    else
      match FindKey(DepthsOf(s.directories), path)
      case Some(key) => HandleUpdate(s, key, tp, rescan, filter, fs)
      case None =>
        if path in s.pending then HandlePending(s, path, DepthFor(s.registered, path), filter, fs) else (s, NOTHING)
  }

  /** A link is updated as a link, whatever it leads to. */
  function UpdatePath(tp: TypedPath): TypedPath {
    if tp.kind.link then TypedPath(tp.path, true, LINK) else tp
  }

  function HandleUpdate(s: FileCache, key: Path, tp: TypedPath, rescan: bool, filter: TypedPath -> bool, fs: Snapshot)
    : (FileCache, Told)
    requires key in s.directories && PathOf(s.directories[key].entry) <= tp.path.names
  {
    var r := Update(s.directories[key], UpdatePath(tp), rescan, CacheFilter(filter, s.registered), fs);
    var s' := s.(directories := s.directories[key := r.tree]);
    if r.Threw? then HandleDelete(s', tp.path.names) else (s', r.changes)
  }

  /** A path that was missing when it was registered has appeared; `depth` is what is registered. */
  function HandlePending(s: FileCache, path: Path, depth: int, filter: TypedPath -> bool, fs: Snapshot)
    : (FileCache, Told)
  {
    var accept := CacheFilter(filter, s.registered);
    match NewCachedDirectory(fs, path, depth, accept)
    case Created(dir) => StorePending(s, path, dir)
    case NotCreated(error) =>
      if error == NotDirectory then StorePending(s, path, ScanOf(fs, path, -1, accept))
      else (s.(pending := s.pending + {path}), NOTHING)
  }

  function StorePending(s: FileCache, path: Path, dir: Cached): (FileCache, Told) {
    (s.(directories := s.directories[path := dir]), Changes({dir.entry} + OwnListing(dir, dir.depth), {}, {}))
  }

  /** `dir.listEntries(maxDepth, AllPass)`. */
  function OwnListing(dir: Cached, maxDepth: int): set<Entry> {
    if dir.entry.tp.present then ListSet(dir, maxDepth, EveryEntry) else {}
  }

  /** What one directory at or above a deleted path loses. */
  function Lost(dir: Cached, key: Path, path: Path): set<Entry>
    requires key <= path
  {
    Remove(dir, path).1 + if key == path then OwnListing(dir, MAX_INT) + {dir.entry} else {}
  }

  /** `handleDelete`: removes the path everywhere, and a directory stored under it altogether. A
      registered path waits until it reappears. */
  function HandleDelete(s: FileCache, path: Path): (FileCache, Told) {
    (FileCache(
       s.registered,
       map key | key in s.directories && key != path ::
         if key <= path then Remove(s.directories[key], path).0 else s.directories[key],
       if path in s.registered && exists key :: key in s.directories && key <= path
       then s.pending + {path} else s.pending),
     Changes({}, {}, set key, e | key in s.directories && key <= path && e in Lost(s.directories[key], key, path) :: e))
  }

  // ----- listing

  /** `listEntries`: a directory of depth -1 reports itself; otherwise the depth asked for is cut to
      what is registered. */
  ghost function ListEntries(s: FileCache, path: Path, maxDepth: int, filter: Entry -> bool): set<Entry> {
    match FindKey(DepthsOf(s.directories), path)
    case None => {}
    case Some(key) =>
      var dir := s.directories[key];
      if key == path && dir.depth == -1 then {dir.entry}
      else
        var depth := DepthFor(s.registered, path);
        ListAt(dir, path, if depth < maxDepth then depth else maxDepth, filter)
  }

  /** `dir.listEntries(path, maxDepth, filter)`. */
  function ListAt(dir: Cached, path: Path, maxDepth: int, filter: Entry -> bool): set<Entry> {
    if !dir.entry.tp.present || Look(dir, path).None? then {}
    else
      match DirAt(dir, path[|PathOf(dir.entry)|..])
      case Some(sub) => ListSet(sub, maxDepth, filter)
      case None => if filter(Look(dir, path).value) then {Look(dir, path).value} else {}
  }
}
