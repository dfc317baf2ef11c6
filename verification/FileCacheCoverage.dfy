/** Over every run of `register`, the cached directories cover what is registered, and no more of
    them are kept than needed. */
module FileCacheCoverage {
  import opened Wrappers
  import opened Entries
  import opened Snapshots
  import opened CacheTree
  import opened CacheInvariants
  import opened CacheRuns
  import opened DirectoryRegistries
  import opened FileCacheTree

  /** A directory of this depth caches all that is wanted at `path`; MAX_INT is no limit. */
  predicate Covers(depth: int, dir: Path, path: Path, want: int) {
    dir <= path && (depth == MAX_INT || depth - (|path| - |dir|) >= want)
  }

  /** No cached directory is covered by another. */
  ghost predicate NoneCovered(dirs: Depths) {
    forall key, other | key in dirs && other in dirs && key < other :: !Covers(dirs[key], key, other, dirs[other])
  }

  /** Some cached directory covers the path to this depth. */
  ghost predicate CoveredAt(dirs: Depths, path: Path, want: int) {
    exists key :: key in dirs && Covers(dirs[key], key, path, want)
  }

  /** Every registered path is covered to its depth. */
  ghost predicate AllCovered(reg: Registered, dirs: Depths) {
    forall path <- reg :: CoveredAt(dirs, path, reg[path])
  }

  predicate DepthsOk(depths: map<Path, int>) {
    forall key <- depths :: -1 <= depths[key] <= MAX_INT && |key| <= MAX_INT
  }

  ghost predicate CoveredDepths(reg: Registered, dirs: Depths) {
    DepthsOk(reg) && DepthsOk(dirs) && NoneCovered(dirs) && AllCovered(reg, dirs)
  }

  lemma CoversTransitive(a: int, dirA: Path, b: int, dirB: Path, path: Path, want: int)
    requires Covers(a, dirA, dirB, b) && Covers(b, dirB, path, want) && want <= MAX_INT
    requires b <= MAX_INT && a <= MAX_INT
    ensures Covers(a, dirA, path, want)
  {
    assert dirA <= path;
  }

  // ----- the arithmetic never overflows

  lemma ExceedsMeans(depth: int, dir: Path, path: Path, maxDepth: int)
    requires dir <= path && |path| <= MAX_INT && -1 <= depth <= MAX_INT
    ensures IsInt(depth - (|Relativize(dir, path)| - 1))
    ensures Exceeds(depth, dir, path, maxDepth) <==>
            depth == MAX_INT || (if dir == path then depth > maxDepth else depth - (|path| - |dir|) >= maxDepth)
  {
  }

  lemma ReachesMeans(depth: int, dir: Path, path: Path)
    requires dir <= path && -1 <= depth
    ensures Reaches(depth, dir, path) <==> Covers(depth, dir, path, -1)
  {
  }

  lemma RedundantMeans(depth: int, key: Path, path: Path, maxDepth: int)
    requires path <= key && |key| <= MAX_INT && -1 <= maxDepth <= MAX_INT
    ensures path < key ==> IsInt(maxDepth - |Relativize(path, key)|)
    ensures Redundant(depth, key, path, maxDepth) <==> path < key && Covers(maxDepth, path, key, depth)
  {
  }

  // ----- one call

  function CleanDepths(dirs: Depths, path: Path, maxDepth: int): Depths {
    map key | key in dirs && !Redundant(dirs[key], key, path, maxDepth) :: dirs[key]
  }

  /** Nothing covers the path of a new directory but a directory already there, which it replaces. */
  lemma NewNotCovered(dirs: Depths, path: Path, maxDepth: int)
    requires DepthsOk(dirs) && |path| <= MAX_INT && -1 <= maxDepth <= MAX_INT && NoneCovered(dirs)
    requires ExistingFor(dirs, path, maxDepth).None?
    ensures NoneCovered(CleanDepths(dirs[path := maxDepth], path, maxDepth))
  {
    var new' := dirs[path := maxDepth];
    var after := CleanDepths(new', path, maxDepth);
    forall key, other | key in after && other in after && key < other
      ensures !Covers(after[key], key, other, after[other])
    {
      if key == path {
        RedundantMeans(new'[other], other, path, maxDepth);
      } else if other == path {
        ExceedsMeans(dirs[key], key, path, maxDepth);
      }
    }
  }

  lemma CleanKeepsNoneCovered(dirs: Depths, path: Path, maxDepth: int)
    requires NoneCovered(dirs)
    ensures NoneCovered(CleanDepths(dirs, path, maxDepth))
  {
  }

  /** What covers `path` also covers what the clean-up drops. */
  lemma CleanKeepsCover(reg: Registered, dirs: Depths, path: Path, maxDepth: int, root: Path)
    requires DepthsOk(dirs) && DepthsOk(reg) && -1 <= maxDepth <= MAX_INT && |path| <= MAX_INT
    requires AllCovered(reg, dirs)
    requires root in dirs && Covers(dirs[root], root, path, maxDepth)
    ensures AllCovered(reg, CleanDepths(dirs, path, maxDepth))
  {
    var after := CleanDepths(dirs, path, maxDepth);
    assert !Redundant(dirs[root], root, path, maxDepth);
    forall p | p in reg
      ensures CoveredAt(after, p, reg[p])
    {
      assert CoveredAt(dirs, p, reg[p]);
      var key :| key in dirs && Covers(dirs[key], key, p, reg[p]);
      if key in after {
        assert Covers(after[key], key, p, reg[p]);
      } else {
        RedundantMeans(dirs[key], key, path, maxDepth);
        CoversTransitive(dirs[root], root, maxDepth, path, key, dirs[key]);
        CoversTransitive(dirs[root], root, dirs[key], key, p, reg[p]);
        assert Covers(after[root], root, p, reg[p]);
      }
    }
  }

  /** One registration keeps both, when an existing directory is left the path ... */
  lemma RegisterWithinCovers(reg: Registered, dirs: Depths, path: Path, maxDepth: int)
    requires CoveredDepths(reg, dirs) && |path| <= MAX_INT && -1 <= maxDepth <= MAX_INT
    requires ExistingFor(dirs, path, maxDepth).Some?
    ensures CoveredDepths(reg[path := maxDepth], dirs)
    ensures var after := CleanDepths(dirs, path, maxDepth);
            CoveredDepths(reg[path := maxDepth], after)
  {
    var root := ExistingFor(dirs, path, maxDepth).value;
    ExceedsMeans(dirs[root], root, path, maxDepth);
    MoreCovered(reg, dirs, path, maxDepth, root);
    CleanKeepsNoneCovered(dirs, path, maxDepth);
    CleanKeepsCover(reg[path := maxDepth], dirs, path, maxDepth, root);
  }

  /** ... and when a new one is stored. */
  lemma RegisterNewCovers(reg: Registered, dirs: Depths, path: Path, maxDepth: int)
    requires CoveredDepths(reg, dirs) && |path| <= MAX_INT && -1 <= maxDepth <= MAX_INT
    requires ExistingFor(dirs, path, maxDepth).None?
    ensures var after := CleanDepths(dirs[path := maxDepth], path, maxDepth);
            CoveredDepths(reg[path := maxDepth], after)
  {
    NewDepthsOk(reg, dirs, path, maxDepth);
    NewNotCovered(dirs, path, maxDepth);
    NewAllCovered(reg, dirs, path, maxDepth);
  }

  lemma NewDepthsOk(reg: Registered, dirs: Depths, path: Path, maxDepth: int)
    requires DepthsOk(dirs) && DepthsOk(reg) && |path| <= MAX_INT && -1 <= maxDepth <= MAX_INT
    ensures DepthsOk(reg[path := maxDepth]) && DepthsOk(CleanDepths(dirs[path := maxDepth], path, maxDepth))
  {
  }

  lemma NewAllCovered(reg: Registered, dirs: Depths, path: Path, maxDepth: int)
    requires DepthsOk(dirs) && DepthsOk(reg) && |path| <= MAX_INT && -1 <= maxDepth <= MAX_INT
    requires AllCovered(reg, dirs) && ExistingFor(dirs, path, maxDepth).None?
    ensures AllCovered(reg[path := maxDepth], CleanDepths(dirs[path := maxDepth], path, maxDepth))
  {
    var reg', new' := reg[path := maxDepth], dirs[path := maxDepth];
    assert AllCovered(reg', new') by { ReplacedCovers(reg, dirs, path, maxDepth); }
    assert DepthsOk(reg') && DepthsOk(new');
    CleanKeepsCover(reg', new', path, maxDepth, path);
  }

  lemma MoreCovered(reg: Registered, dirs: Depths, path: Path, maxDepth: int, root: Path)
    requires AllCovered(reg, dirs) && root in dirs && Covers(dirs[root], root, path, maxDepth)
    ensures AllCovered(reg[path := maxDepth], dirs)
  {
    assert CoveredAt(dirs, path, maxDepth);
  }

  /** A directory that is replaced, is replaced by a deeper one. */
  lemma ReplacedCovers(reg: Registered, dirs: Depths, path: Path, maxDepth: int)
    requires DepthsOk(dirs) && DepthsOk(reg) && |path| <= MAX_INT && -1 <= maxDepth <= MAX_INT
    requires AllCovered(reg, dirs) && ExistingFor(dirs, path, maxDepth).None?
    ensures AllCovered(reg[path := maxDepth], dirs[path := maxDepth])
  {
    var reg', new' := reg[path := maxDepth], dirs[path := maxDepth];
    forall p | p in reg'
      ensures CoveredAt(new', p, reg'[p])
    {
      if p == path {
        assert Covers(new'[path], path, p, reg'[p]);
      } else {
        assert CoveredAt(dirs, p, reg[p]);
        var key :| key in dirs && Covers(dirs[key], key, p, reg[p]);
        if key == path { ExceedsMeans(dirs[path], path, path, maxDepth); }
        assert Covers(new'[key], key, p, reg'[p]);
      }
    }
  }

  /** Whatever the registry accepts is found, in a directory that caches every level registered. */
  lemma FindIsDeepEnough(reg: Registered, dirs: Depths, path: Path)
    requires CoveredDepths(reg, dirs) && |path| <= MAX_INT && Accepts(reg, path)
    ensures var key := FindKey(dirs, path);
            key.Some? && Covers(dirs[key.value], key.value, path, DepthFor(reg, path))
  {
    var root := WantedRoot(reg, dirs, path);
    ReachesMeans(dirs[root], root, path);
    var key := FindKey(dirs, path).value;
    if key != root {
      assert root < key && !Covers(dirs[root], root, key, dirs[key]);
    }
  }

  lemma WantedRoot(reg: Registered, dirs: Depths, path: Path) returns (root: Path)
    requires DepthsOk(dirs) && DepthsOk(reg) && |path| <= MAX_INT
    requires AllCovered(reg, dirs) && Accepts(reg, path)
    ensures root in dirs && Covers(dirs[root], root, path, DepthFor(reg, path)) && -1 <= DepthFor(reg, path)
  {
    var want := DepthFor(reg, path);
    QueriesAgreeOnDepths(reg, path);
    var p :| p in reg && p <= path && Remaining(reg[p], p, path) == want;
    DepthsStayInts(reg, path);
    assert CoveredAt(dirs, p, reg[p]);
    root :| root in dirs && Covers(dirs[root], root, p, reg[p]);
    CoversTransitive(dirs[root], root, reg[p], p, path, want);
  }

  // ----- runs

  datatype Registration = Registration(path: Path, maxDepth: int, fs: Snapshot)

  /** The caller registers a readable directory, or asks for its own entry alone. */
  ghost predicate RegistersDirectory(call: Registration) {
    && -1 <= call.maxDepth <= MAX_INT && Proper(call.path) && |call.path| <= MAX_INT
    && WellFormed(call.fs.root, [])
    && (call.maxDepth >= 0 ==> ListDirectory(call.fs, call.path).Children?)
  }

  /** The states of a run of `register`, from an empty cache; the watcher accepts every path, and
      the file system may change between the calls. */
  ghost predicate IsRun(states: seq<FileCache>, calls: seq<Registration>, filter: TypedPath -> bool) {
    && |states| == |calls| + 1 && states[0] == FileCache(map[], map[], {})
    && forall i | 0 <= i < |calls| ::
         RegistersDirectory(calls[i]) && IsStep(states[i], calls[i], filter, states[i + 1])
  }

  ghost predicate IsStep(s: FileCache, call: Registration, filter: TypedPath -> bool, s': FileCache) {
    && (forall key <- s.directories :: PathOf(s.directories[key].entry) == key)
    && s' == Register(s, call.path, call.maxDepth, true, filter, call.fs).0
  }

  ghost predicate Covered(s: FileCache) {
    StateOk(s) && CoveredDepths(s.registered, DepthsOf(s.directories))
  }

  /** An update of one directory changes no depth. */
  lemma SameDepths(directories: map<Path, Cached>, key: Path, dir: Cached)
    requires key in directories && dir.depth == directories[key].depth
    ensures DepthsOf(directories[key := dir]) == DepthsOf(directories)
  {
  }

  lemma CleanupDepths(directories: map<Path, Cached>, path: Path, maxDepth: int)
    ensures DepthsOf(Cleanup(directories, path, maxDepth)) == CleanDepths(DepthsOf(directories), path, maxDepth)
  {
  }

  lemma ScanStruct(fs: Snapshot, path: Path, depth: int, accept: TypedPath -> bool)
    requires WellFormed(fs.root, []) && |path| <= MAX_INT && depth <= MAX_INT
    ensures Struct(ScanOf(fs, path, depth, accept), path) && ScanOf(fs, path, depth, accept).depth == depth
  {
    InitAtStruct(fs, Entry(Stat(fs, path), fs.convert(path)), depth, accept);
  }

  lemma WithinStep(s: FileCache, key: Path, call: Registration, filter: TypedPath -> bool)
    requires StateOk(s) && RegistersDirectory(call) && key in s.directories && key <= call.path
    ensures var s' := RegisterWithin(s, key, call.path, call.maxDepth, filter, call.fs).0;
            && StateOk(s') && s'.registered == s.registered
            && (DepthsOf(s'.directories) == DepthsOf(s.directories)
                || DepthsOf(s'.directories) == CleanDepths(DepthsOf(s.directories), call.path, call.maxDepth))
  {
    var accept := CacheFilter(filter, s.registered);
    var r := Update(s.directories[key], Stat(call.fs, call.path), true, accept, call.fs);
    UpdateStruct(s.directories[key], key, Stat(call.fs, call.path), true, accept, call.fs);
    SameDepths(s.directories, key, r.tree);
    CleanupDepths(s.directories[key := r.tree], call.path, call.maxDepth);
  }

  lemma NewStep(s: FileCache, call: Registration, filter: TypedPath -> bool)
    requires StateOk(s) && RegistersDirectory(call)
    ensures var s' := RegisterNew(s, call.path, call.maxDepth, filter, call.fs).0;
            && StateOk(s') && s'.registered == s.registered
            && DepthsOf(s'.directories)
               == CleanDepths(DepthsOf(s.directories)[call.path := call.maxDepth], call.path, call.maxDepth)
  {
    var accept := CacheFilter(filter, s.registered);
    var dir := ScanOf(call.fs, call.path, call.maxDepth, accept);
    ScanStruct(call.fs, call.path, call.maxDepth, accept);
    CleanupDepths(s.directories[call.path := dir], call.path, call.maxDepth);
    assert DepthsOf(s.directories[call.path := dir]) == DepthsOf(s.directories)[call.path := call.maxDepth];
  }

  lemma WithinCovered(s: FileCache, key: Path, call: Registration, filter: TypedPath -> bool)
    requires Covered(s) && RegistersDirectory(call)
    requires ExistingFor(DepthsOf(s.directories), call.path, call.maxDepth) == Some(key)
    ensures key in s.directories && PathOf(s.directories[key].entry) == key
    ensures Covered(RegisterWithin(s.(registered := s.registered[call.path := call.maxDepth]), key, call.path,
                                   call.maxDepth, filter, call.fs).0)
  {
    RegisterWithinCovers(s.registered, DepthsOf(s.directories), call.path, call.maxDepth);
    WithinStep(s.(registered := s.registered[call.path := call.maxDepth]), key, call, filter);
  }

  lemma NewCovered(s: FileCache, call: Registration, filter: TypedPath -> bool)
    requires Covered(s) && RegistersDirectory(call)
    requires ExistingFor(DepthsOf(s.directories), call.path, call.maxDepth).None?
    ensures Covered(RegisterNew(s.(registered := s.registered[call.path := call.maxDepth]), call.path, call.maxDepth,
                                filter, call.fs).0)
  {
    RegisterNewCovers(s.registered, DepthsOf(s.directories), call.path, call.maxDepth);
    NewStep(s.(registered := s.registered[call.path := call.maxDepth]), call, filter);
  }

  lemma RegisterStep(s: FileCache, call: Registration, filter: TypedPath -> bool, s': FileCache)
    requires Covered(s) && RegistersDirectory(call) && IsStep(s, call, filter, s')
    ensures Covered(s')
  {
    if Adds(s.registered, call.path, call.maxDepth) {
      var existing := ExistingFor(DepthsOf(s.directories), call.path, call.maxDepth);
      if existing.Some? {
        WithinCovered(s, existing.value, call, filter);
      } else {
        NewCovered(s, call, filter);
      }
    }
  }

  /** What `find` returns for an accepted path. */
  ghost predicate FoundDeepEnough(s: FileCache, path: Path) {
    var dirs := DepthsOf(s.directories);
    var key := FindKey(dirs, path);
    key.Some? && Covers(dirs[key.value], key.value, path, DepthFor(s.registered, path))
  }

  /** ... for every accepted path. */
  ghost predicate AllFound(s: FileCache) {
    forall path | |path| <= MAX_INT && Accepts(s.registered, path) :: FoundDeepEnough(s, path)
  }

  lemma FindsDeepEnough(s: FileCache)
    requires Covered(s)
    ensures AllFound(s)
  {
    forall path | |path| <= MAX_INT && Accepts(s.registered, path)
      ensures FoundDeepEnough(s, path)
    {
      FindIsDeepEnough(s.registered, DepthsOf(s.directories), path);
    }
  }

  /** Over every run of `register` on directories: no cached directory is covered by another, every
      registered path is covered to its depth, and for every path the registry accepts `find`
      returns a directory that caches all levels `maxDepthFor` counts. */
  lemma {:induction false} RunsCover(states: seq<FileCache>, calls: seq<Registration>, filter: TypedPath -> bool,
                                     i: nat)
    requires IsRun(states, calls, filter) && i <= |calls|
    ensures Covered(states[i]) && AllFound(states[i])
    decreases i
  {
    if i > 0 {
      RunsCover(states, calls, filter, i - 1);
      assert IsStep(states[i - 1], calls[i - 1], filter, states[i - 1 + 1]) && RegistersDirectory(calls[i - 1]);
      RegisterStep(states[i - 1], calls[i - 1], filter, states[i]);
    }
    FindsDeepEnough(states[i]);
  }

  /** A registration that is not refused drops exactly the stored directories below the path that it covers now,
      whether the path gets a directory, is left to an existing one, or is missing. */
  lemma RegisterDrops(s: FileCache, path: Path, maxDepth: int, filter: TypedPath -> bool, fs: Snapshot, key: Path)
    requires StateOk(s) && !Recorded(s.registered, path, maxDepth)
    requires -1 <= maxDepth <= MAX_INT && |key| <= MAX_INT && key != path
    requires !Register(s, path, maxDepth, true, filter, fs).1.UpdateFailed?
    ensures key in Register(s, path, maxDepth, true, filter, fs).0.directories
       <==> key in s.directories && !(path < key && Covers(maxDepth, path, key, s.directories[key].depth))
  {
    if key in s.directories && path < key { RedundantMeans(s.directories[key].depth, key, path, maxDepth); }
    var s' := s.(registered := s.registered[path := maxDepth]);
    match ExistingFor(DepthsOf(s.directories), path, maxDepth) {
      case Some(k) => WithinDrops(s', k, path, maxDepth, filter, fs, key);
      case None => NewDrops(s', path, maxDepth, filter, fs, key);
    }
  }

  lemma WithinDrops(s: FileCache, k: Path, path: Path, maxDepth: int, filter: TypedPath -> bool, fs: Snapshot,
                    key: Path)
    requires k in s.directories && k <= path && PathOf(s.directories[k].entry) == k
    requires !RegisterWithin(s, k, path, maxDepth, filter, fs).1.UpdateFailed?
    ensures key in RegisterWithin(s, k, path, maxDepth, filter, fs).0.directories
       <==> key in s.directories && !Redundant(s.directories[key].depth, key, path, maxDepth)
  {
  }

  lemma NewDrops(s: FileCache, path: Path, maxDepth: int, filter: TypedPath -> bool, fs: Snapshot, key: Path)
    requires key != path
    ensures key in RegisterNew(s, path, maxDepth, filter, fs).0.directories
       <==> key in s.directories && !Redundant(s.directories[key].depth, key, path, maxDepth)
  {
  }

  // ----- what is asked for is registered

  /** What is registered at `path` after one registration, watched or not: the greater depth counts, and nothing
      else changes. A path that is registered as deep already is not added. */
  lemma RegisterRecords(s: FileCache, path: Path, maxDepth: int, watched: bool, filter: TypedPath -> bool, fs: Snapshot)
    requires forall key <- s.directories :: PathOf(s.directories[key].entry) == key
    ensures var (s', result) := Register(s, path, maxDepth, watched, filter, fs);
            && path in s'.registered && maxDepth <= s'.registered[path]
            && (path in s.registered && maxDepth <= s.registered[path] ==> result == NotAdded && s' == s)
            && (path !in s.registered || s.registered[path] < maxDepth ==>
                  s'.registered[path] == maxDepth && result != NotAdded && (result == NotWatched <==> !watched))
            && s'.registered - {path} == s.registered - {path}
  {
    assert s.registered[path := maxDepth] - {path} == s.registered - {path};
  }

  /** The call asks for a path and a depth that are registered at least as deep. */
  predicate Recorded(reg: Registered, path: Path, maxDepth: int) {
    path in reg && maxDepth <= reg[path]
  }

  /** Some call asked for exactly this. */
  ghost predicate AskedFor(calls: seq<Registration>, i: nat, path: Path, depth: int)
    requires i <= |calls|
  {
    exists j :: 0 <= j < i && calls[j].path == path && calls[j].maxDepth == depth
  }

  /** What the calls before `i` asked for is registered, and nothing else. */
  ghost predicate RecordsCalls(reg: Registered, calls: seq<Registration>, i: nat)
    requires i <= |calls|
  {
    && (forall j | 0 <= j < i :: Recorded(reg, calls[j].path, calls[j].maxDepth))
    && forall path <- reg :: AskedFor(calls, i, path, reg[path])
  }

  /** Over every run: what any call asked for is registered, at least as deep as it asked; and every depth that
      is registered was asked for by some call. */
  lemma RunsRecord(states: seq<FileCache>, calls: seq<Registration>, filter: TypedPath -> bool, i: nat)
    requires IsRun(states, calls, filter) && i <= |calls|
    ensures RecordsCalls(states[i].registered, calls, i)
  {
    var regs := seq(|states|, k requires 0 <= k < |states| => states[k].registered);
    NothingRecorded(states, calls, filter);
    forall k: nat | k < |calls|
      ensures RecordsOne(regs[k], calls[k], regs[k + 1])
    {
      RunRecordsOne(states, calls, filter, k);
    }
    RecordsAll(regs, calls, i);
  }

  lemma {:induction false} RecordsAll(regs: seq<Registered>, calls: seq<Registration>, i: nat)
    requires |regs| == |calls| + 1 && i <= |calls| && RecordsCalls(regs[0], calls, 0)
    requires forall k: nat | k < |calls| :: RecordsOne(regs[k], calls[k], regs[k + 1])
    ensures RecordsCalls(regs[i], calls, i)
    decreases i
  {
    if i > 0 {
      RecordsAll(regs, calls, i - 1);
      RecordStep(calls, i, regs[i - 1], regs[i]);
    }
  }

  lemma NothingRecorded(states: seq<FileCache>, calls: seq<Registration>, filter: TypedPath -> bool)
    requires IsRun(states, calls, filter)
    ensures RecordsCalls(states[0].registered, calls, 0)
  {
  }

  lemma RunRecordsOne(states: seq<FileCache>, calls: seq<Registration>, filter: TypedPath -> bool, i: nat)
    requires IsRun(states, calls, filter) && i < |calls|
    ensures RecordsOne(states[i].registered, calls[i], states[i + 1].registered)
  {
    assert IsStep(states[i], calls[i], filter, states[i + 1]);
    StepRecords(states[i], calls[i], filter, states[i + 1]);
  }

  /** What one call makes of what is registered. */
  ghost predicate RecordsOne(before: Registered, call: Registration, after: Registered) {
    && Recorded(after, call.path, call.maxDepth) && after - {call.path} == before - {call.path}
    && (Recorded(before, call.path, call.maxDepth) ==> after == before)
    && (!Recorded(before, call.path, call.maxDepth) ==> after[call.path] == call.maxDepth)
  }

  lemma StepRecords(s: FileCache, call: Registration, filter: TypedPath -> bool, s': FileCache)
    requires IsStep(s, call, filter, s')
    ensures RecordsOne(s.registered, call, s'.registered)
  {
    RegisterRecords(s, call.path, call.maxDepth, true, filter, call.fs);
  }

  /** One more call. */
  lemma RecordStep(calls: seq<Registration>, i: nat, before: Registered, after: Registered)
    requires 0 < i <= |calls| && RecordsCalls(before, calls, i - 1)
    requires RecordsOne(before, calls[i - 1], after)
    ensures RecordsCalls(after, calls, i)
  {
    var call := calls[i - 1];
    forall j | 0 <= j < i
      ensures Recorded(after, calls[j].path, calls[j].maxDepth)
    {
      if j < i - 1 {
        assert Recorded(before, calls[j].path, calls[j].maxDepth);
        if calls[j].path != call.path { SameElsewhere(after, before, call.path, calls[j].path); }
      }
    }
    forall path | path in after
      ensures AskedFor(calls, i, path, after[path])
    {
      if path != call.path { SameElsewhere(after, before, call.path, path); }
      StillAsked(calls, i, before, after, path);
    }
  }

  lemma SameElsewhere(a: Registered, b: Registered, path: Path, other: Path)
    requires a - {path} == b - {path} && other != path
    ensures other in a <==> other in b
    ensures other in b ==> a[other] == b[other]
  {
    assert other in a <==> other in a - {path};
    assert other in b <==> other in b - {path};
    assert other in a ==> a[other] == (a - {path})[other];
    assert other in b ==> b[other] == (b - {path})[other];
  }

  lemma StillAsked(calls: seq<Registration>, i: nat, before: Registered, after: Registered, path: Path)
    requires 0 < i <= |calls| && path in after
    requires forall p <- before :: AskedFor(calls, i - 1, p, before[p])
    requires || (path in before && after[path] == before[path])
             || (path == calls[i - 1].path && after[path] == calls[i - 1].maxDepth)
    ensures AskedFor(calls, i, path, after[path])
  {
    if path in before && after[path] == before[path] {
      var j :| 0 <= j < i - 1 && calls[j].path == path && calls[j].maxDepth == before[path];
    }
  }

  /** So every depth that was asked for is covered by a stored directory. */
  lemma RequestsCovered(states: seq<FileCache>, calls: seq<Registration>, filter: TypedPath -> bool, i: nat, j: nat)
    requires IsRun(states, calls, filter) && j < i <= |calls|
    ensures CoveredAt(DepthsOf(states[i].directories), calls[j].path, calls[j].maxDepth)
  {
    RunsCover(states, calls, filter, i);
    RunsRecord(states, calls, filter, i);
    assert Recorded(states[i].registered, calls[j].path, calls[j].maxDepth);
    var path, dirs := calls[j].path, DepthsOf(states[i].directories);
    var key :| key in dirs && Covers(dirs[key], key, path, states[i].registered[path]);
    assert Covers(dirs[key], key, path, calls[j].maxDepth);
  }
}
