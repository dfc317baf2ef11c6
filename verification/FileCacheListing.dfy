/** Listing registered directories reports the file system: nothing that is registered is missing. */
module FileCacheListing {
  import opened Wrappers
  import opened Entries
  import opened Snapshots
  import opened CacheTree
  import opened CacheInvariants
  import opened CachePut
  import opened CacheListing
  import opened CacheDeliveries
  import opened CacheSettlesListing
  import opened CacheFilters
  import opened DirectoryRegistries
  import opened FileCacheTree
  import opened FileCacheCoverage

  /** The cached directory holds the file system down to its depth limit. */
  ghost predicate Mirrors(c: Cached, key: Path, fs: Snapshot) {
    && NodeAt(fs.root, key).Some? && NodeAt(fs.root, key).value.Folder?
    && Placed(c, key, NodeAt(fs.root, key).value, fs) && Clean(c)
    && c.entry == OwnEntry(NodeAt(fs.root, key).value, key, fs)
    && AllRight(c, NodeAt(fs.root, key).value, key, fs.convert)
  }

  /** Every cached directory does. */
  ghost predicate EachMirrors(s: FileCache, fs: Snapshot) {
    forall key <- s.directories :: Mirrors(s.directories[key], key, fs)
  }

  /** What is registered leaves at least this depth for `key`. */
  ghost predicate LeavesDepth(reg: Registered, key: Path, depth: int) {
    depth <= DepthFor(reg, key)
  }

  /** No cached directory is deeper than what is registered leaves for it. */
  ghost predicate NoneDeeper(s: FileCache) {
    forall key <- s.directories :: LeavesDepth(s.registered, key, s.directories[key].depth)
  }

  ghost predicate AllMirror(s: FileCache, fs: Snapshot) {
    NoneDeeper(s) && EachMirrors(s, fs)
  }

  // ----- a quiet file system

  /** The registry accepts all a directory caches, when that is no deeper than registered. */
  lemma RegisteredWithin(reg: Registered, key: Path, depth: int)
    requires DepthsOk(reg) && |key| <= MAX_INT && LeavesDepth(reg, key, depth)
    ensures AcceptsWithin(CacheFilter(AllPass, reg), key, depth)
  {
    forall tp: TypedPath | tp.path.Abs? && |tp.path.names| <= MAX_INT && key <= tp.path.names
                           && Within(depth, |tp.path.names| - |key|)
      ensures CacheFilter(AllPass, reg)(tp)
    {
      var dir :| dir in reg && dir <= key && Remaining(reg[dir], dir, key) == DepthFor(reg, key);
      assert dir <= tp.path.names && AcceptedBy(dir, reg[dir], tp.path.names);
      assert Accepts(reg, tp.path.names) && AllPass(tp);
    }
  }

  lemma RegisteredAccepted(reg: Registered, tp: TypedPath)
    requires tp.path.Abs? && tp.path.names in reg
    ensures CacheFilter(AllPass, reg)(tp)
  {
    assert AcceptedBy(tp.path.names, reg[tp.path.names], tp.path.names);
    assert Accepts(reg, tp.path.names) && AllPass(tp);
  }

  lemma ScanMirrors(fs: Snapshot, path: Path, depth: int, accept: TypedPath -> bool)
    requires WellFormed(fs.root, []) && |path| <= MAX_INT && depth <= MAX_INT
    requires ListDirectory(fs, path).Children? && AcceptsWithin(accept, path, depth)
    ensures Mirrors(ScanOf(fs, path, depth, accept), path, fs)
  {
    var entry, node := Entry(Stat(fs, path), fs.convert(path)), NodeAt(fs.root, path).value;
    var c := ScanOf(fs, path, depth, accept);
    InitAtSame(fs, entry, depth, accept);
    InitAtStruct(fs, entry, depth, accept);
    forall rel | rel != []
      ensures Right(c, node, path, fs.convert, rel)
    {
      ScanIsRight(c, path, node, fs, path + rel);
    }
  }

  /** Registering a path within a directory that mirrors the file system changes nothing there. */
  lemma UpdateMirrors(c: Cached, key: Path, fs: Snapshot, path: Path, accept: TypedPath -> bool)
    requires Mirrors(c, key, fs) && AcceptsWithin(accept, key, c.depth) && accept(Stat(fs, path))
    requires key <= path && Proper(path) && |path| <= MAX_INT && ListDirectory(fs, path).Children?
    ensures var r := Update(c, Stat(fs, path), true, accept, fs);
            r.Updated? && Mirrors(r.tree, key, fs) && r.tree.depth == c.depth
  {
    var node := NodeAt(fs.root, key).value;
    UpdateSame(c, key, Stat(fs, path), true, accept, fs);
    assert Stat(fs, path) == Reading(fs, path);
    StaysMirror(c, key, fs, path, true);
  }

  /** Any event leaves a mirror a mirror. */
  lemma StaysMirror(c: Cached, key: Path, fs: Snapshot, q: Path, rescan: bool)
    requires Mirrors(c, key, fs) && key <= q
    ensures var c' := Update(c, Reading(fs, q), rescan, AllPass, fs).tree;
            Mirrors(c', key, fs) && c'.depth == c.depth
  {
    var node := NodeAt(fs.root, key).value;
    DeliverOne(c, key, node, fs, q, rescan);
    StaysRight(c, key, node, fs, q, rescan);
    StaysClean(c, key, node, fs, q, rescan);
  }

  ghost predicate Registers(call: Registration, fs: Snapshot) {
    call.fs == fs && ListDirectory(fs, call.path).Children?
  }

  /** One directory is stored, and perhaps others are dropped. */
  lemma PutNoneDeeper(s: FileCache, s': FileCache, key: Path)
    requires NoneDeeper(s) && s'.registered == s.registered && key in s'.directories
    requires forall other <- s'.directories ::
               other != key ==> other in s.directories && s'.directories[other] == s.directories[other]
    requires LeavesDepth(s.registered, key, s'.directories[key].depth)
    ensures NoneDeeper(s')
  {
  }

  lemma WithinMirrors(s: FileCache, key: Path, call: Registration, fs: Snapshot)
    requires StateOk(s) && AllMirror(s, fs) && RegistersDirectory(call) && Registers(call, fs)
    requires key in s.directories && key <= call.path && call.path in s.registered && DepthsOk(s.registered)
    ensures AllMirror(RegisterWithin(s, key, call.path, call.maxDepth, AllPass, fs).0, fs)
  {
    var s' := RegisterWithin(s, key, call.path, call.maxDepth, AllPass, fs).0;
    assert Struct(s.directories[key], key);
    RegisteredWithin(s.registered, key, s.directories[key].depth);
    WithinEachMirrors(s, key, call, fs);
    PutNoneDeeper(s, s', key);
  }

  lemma WithinEachMirrors(s: FileCache, key: Path, call: Registration, fs: Snapshot)
    requires StateOk(s) && EachMirrors(s, fs) && RegistersDirectory(call) && Registers(call, fs)
    requires key in s.directories && key <= call.path && call.path in s.registered
    requires AcceptsWithin(CacheFilter(AllPass, s.registered), key, s.directories[key].depth)
    ensures var s' := RegisterWithin(s, key, call.path, call.maxDepth, AllPass, fs).0;
            && EachMirrors(s', fs) && s'.registered == s.registered
            && key in s'.directories && s'.directories[key].depth == s.directories[key].depth
            && forall other <- s'.directories ::
                 other != key ==> other in s.directories && s'.directories[other] == s.directories[other]
  {
    var c, accept := s.directories[key], CacheFilter(AllPass, s.registered);
    RegisteredAccepted(s.registered, Stat(fs, call.path));
    UpdateMirrors(c, key, fs, call.path, accept);
  }

  lemma NewMirrors(s: FileCache, call: Registration, fs: Snapshot)
    requires AllMirror(s, fs) && RegistersDirectory(call) && Registers(call, fs) && DepthsOk(s.registered)
    requires call.path in s.registered && call.maxDepth == s.registered[call.path]
    ensures AllMirror(RegisterNew(s, call.path, call.maxDepth, AllPass, fs).0, fs)
  {
    OwnDepth(s.registered, call.path);
    RegisteredWithin(s.registered, call.path, call.maxDepth);
    NewEachMirrors(s, call, fs);
    PutNoneDeeper(s, RegisterNew(s, call.path, call.maxDepth, AllPass, fs).0, call.path);
  }

  /** A registered path is left at least its own depth. */
  lemma OwnDepth(reg: Registered, path: Path)
    requires path in reg && DepthsOk(reg)
    ensures LeavesDepth(reg, path, reg[path])
  {
    assert Remaining(reg[path], path, path) == reg[path];
  }

  lemma NewEachMirrors(s: FileCache, call: Registration, fs: Snapshot)
    requires EachMirrors(s, fs) && RegistersDirectory(call) && Registers(call, fs)
    requires AcceptsWithin(CacheFilter(AllPass, s.registered), call.path, call.maxDepth)
    ensures var s' := RegisterNew(s, call.path, call.maxDepth, AllPass, fs).0;
            && EachMirrors(s', fs) && s'.registered == s.registered
            && call.path in s'.directories && s'.directories[call.path].depth == call.maxDepth
            && forall other <- s'.directories ::
                 other != call.path ==> other in s.directories && s'.directories[other] == s.directories[other]
  {
    var accept := CacheFilter(AllPass, s.registered);
    NewIs(s, call.path, call.maxDepth, fs);
    ScanMirrors(fs, call.path, call.maxDepth, accept);
    ScanStruct(fs, call.path, call.maxDepth, accept);
  }

  lemma NewIs(s: FileCache, path: Path, maxDepth: int, fs: Snapshot)
    requires ListDirectory(fs, path).Children?
    ensures var dir := ScanOf(fs, path, maxDepth, CacheFilter(AllPass, s.registered));
            RegisterNew(s, path, maxDepth, AllPass, fs).0
            == s.(directories := Cleanup(s.directories[path := dir], path, maxDepth))
  {
  }

  lemma MoreRegistered(s: FileCache, path: Path, maxDepth: int, fs: Snapshot)
    requires StateOk(s) && AllMirror(s, fs) && Adds(s.registered, path, maxDepth)
    requires DepthsOk(s.registered) && -1 <= maxDepth <= MAX_INT && |path| <= MAX_INT
    ensures AllMirror(s.(registered := s.registered[path := maxDepth]), fs)
  {
    var s' := s.(registered := s.registered[path := maxDepth]);
    forall key | key in s'.directories
      ensures LeavesDepth(s'.registered, key, s'.directories[key].depth)
    {
      assert Struct(s.directories[key], key);
      MoreLeft(s.registered, path, maxDepth, key);
    }
  }

  lemma MoreLeft(reg: Registered, path: Path, maxDepth: int, key: Path)
    requires DepthsOk(reg) && -1 <= maxDepth <= MAX_INT && |path| <= MAX_INT && |key| <= MAX_INT
    requires Adds(reg, path, maxDepth)
    ensures DepthFor(reg, key) <= DepthFor(reg[path := maxDepth], key)
  {
    DepthsStayInts(reg, key);
    DepthsStayInts(reg[path := maxDepth], key);
    DepthForGrows(reg, reg[path := maxDepth], key);
  }

  lemma StepMirrors(s: FileCache, call: Registration, fs: Snapshot, s': FileCache)
    requires StateOk(s) && DepthsOk(s.registered)
    requires AllMirror(s, fs) && RegistersDirectory(call) && Registers(call, fs) && IsStep(s, call, AllPass, s')
    ensures AllMirror(s', fs)
  {
    if Adds(s.registered, call.path, call.maxDepth) {
      var s1 := s.(registered := s.registered[call.path := call.maxDepth]);
      MoreRegistered(s, call.path, call.maxDepth, fs);
      assert StateOk(s1) && DepthsOk(s1.registered);
      match ExistingFor(DepthsOf(s.directories), call.path, call.maxDepth) {
        case Some(key) => WithinMirrors(s1, key, call, fs);
        case None => NewMirrors(s1, call, fs);
      }
    }
  }

  // ----- what is listed

  /** What listing `q` to `levels` reports when the file system is `fs`: what exists strictly below a
      directory within the levels, and otherwise the path itself. */
  predicate ListedNow(fs: Snapshot, q: Path, levels: int, e: Entry) {
    match NodeAt(fs.root, q)
    case None => false
    case Some(node) =>
      if node.Folder? && levels >= 0 then
        && e.tp.path.Abs? && Below(q, levels + 1, PathOf(e))
        && NodeAt(fs.root, PathOf(e)).Some? && e == Exactly(fs, PathOf(e))
      else e == Exactly(fs, q)
  }

  function Exactly(fs: Snapshot, q: Path): Entry
    requires NodeAt(fs.root, q).Some?
  {
    Entry(Listed(NodeAt(fs.root, q).value, q), fs.convert(q))
  }

  /** A directory above the depth limit is cached as one. */
  lemma {:induction false} DirectoryAt(c: Cached, path: Path, rel: Path)
    requires Struct(c, path) && At(c, rel).Some? && IsDirectory(At(c, rel).value.tp)
    requires c.depth >= 0 && (c.depth == MAX_INT || |rel| <= c.depth)
    ensures DirAt(c, rel).Some? && DirAt(c, rel).value.depth >= 0
    decreases |rel|
  {
    if rel != [] {
      assert Key(rel[0]) in c.files ==> FileOk(c, path, Key(rel[0]));
      if rel[0] in c.subs {
        assert SubOk(c, rel[0]);
        DirectoryAt(c.subs[rel[0]], path + [rel[0]], rel[1..]);
      }
    }
  }

  /** What a mirror holds at a path within its depth. */
  lemma LookMirror(c: Cached, key: Path, fs: Snapshot, q: Path)
    requires Mirrors(c, key, fs) && key <= q && Within(c.depth, |q| - |key|)
    ensures Look(c, q) == if NodeAt(fs.root, q).Some? then Some(Exactly(fs, q)) else None
  {
    var node, rel := NodeAt(fs.root, key).value, q[|key|..];
    assert key + rel == q;
    NodeAtSplit(fs.root, key, rel);
    if rel != [] {
      assert Right(c, node, key, fs.convert, rel);
    } else {
      assert q == key;
    }
  }

  /** Listing a path that a mirror covers to `levels`. */
  lemma ListAtMirror(c: Cached, key: Path, fs: Snapshot, q: Path, levels: int, e: Entry)
    requires Mirrors(c, key, fs) && -1 <= c.depth && Covers(c.depth, key, q, levels) && Within(c.depth, |q| - |key|)
    ensures e in ListAt(c, q, levels, EveryEntry) <==> ListedNow(fs, q, levels, e)
  {
    var rel := q[|key|..];
    assert key + rel == q;
    LookMirror(c, key, fs, q);
    if NodeAt(fs.root, q).Some? {
      var node := NodeAt(fs.root, q).value;
      if node.Folder? && levels >= 0 {
        DirectoryAt(c, key, rel);
        ListBelowMirror(c, key, fs, q, levels, e);
      } else {
        OwnEntryOnly(c, key, rel, levels, e);
      }
    }
  }

  /** A file, or a directory asked for no levels, reports itself. */
  lemma OwnEntryOnly(c: Cached, key: Path, rel: Path, levels: int, e: Entry)
    requires Struct(c, key) && c.entry.tp.present && IsDirectory(c.entry.tp) && At(c, rel).Some?
    requires levels < 0 || !IsDirectory(At(c, rel).value.tp)
    ensures e in ListAt(c, key + rel, levels, EveryEntry) <==> e == At(c, rel).value
  {
    assert (key + rel)[|key|..] == rel;
    if rel != [] && DirAt(c, rel).Some? {
      DirectoryEntryAt(c, key, rel);
    }
  }

  lemma ListBelowMirror(c: Cached, key: Path, fs: Snapshot, q: Path, levels: int, e: Entry)
    requires Mirrors(c, key, fs) && 0 <= c.depth && Covers(c.depth, key, q, levels) && levels >= 0
    requires var dir := DirAt(c, q[|key|..]); dir.Some? && dir.value.depth >= 0
    ensures var dir := DirAt(c, q[|key|..]).value;
            e in ListSet(dir, levels, EveryEntry) <==>
            && e.tp.path.Abs? && Below(q, levels + 1, PathOf(e))
            && NodeAt(fs.root, PathOf(e)).Some? && e == Exactly(fs, PathOf(e))
  {
    var rel := q[|key|..];
    assert key + rel == q;
    ListingComposes(c, key, rel, levels, e);
    if Below(q, levels + 1, PathOf(e)) {
      assert key <= PathOf(e);
      LookMirror(c, key, fs, PathOf(e));
      ListSetReports(c, key, MAX_INT, EveryEntry, e);
      NodeWithin(fs, PathOf(e));
    }
  }

  lemma NodeWithin(fs: Snapshot, q: Path)
    requires WellFormed(fs.root, [])
    ensures NodeAt(fs.root, q).Some? ==> |q| <= MAX_INT
  {
    if NodeAt(fs.root, q).Some? {
      WellFormedAt(fs.root, [], q);
      assert [] + q == q;
    }
  }

  // ----- filters

  /** The filter is not asked about `e` when `q` is listed to `levels`: `q` is cached as a directory of negative
      depth, or listed to none, and reports itself; or `e` is such a directory that the listing descends
      into. */
  predicate Unasked(c: Cached, key: Path, q: Path, levels: int, e: Entry)
    requires key <= q
  {
    match DirAt(c, q[|key|..])
    case None => false
    case Some(dir) => dir.depth < 0 || levels < 0 || Unfiltered(dir, q, levels, PathOf(e))
  }

  /** A filter lets through what it accepts, and what it is not asked about. */
  lemma ListAtFiltered(c: Cached, key: Path, q: Path, levels: int, filter: Entry -> bool, e: Entry)
    requires Struct(c, key) && Clean(c) && key <= q
    ensures e in ListAt(c, q, levels, filter)
       <==> e in ListAt(c, q, levels, EveryEntry) && (filter(e) || Unasked(c, key, q, levels, e))
  {
    var dir := DirAt(c, q[|key|..]);
    if dir.Some? && dir.value.depth >= 0 && levels >= 0 {
      DirAtStruct(c, key, q[|key|..]);
      assert key + q[|key|..] == q;
      ListSetReports(dir.value, q, levels, filter, e);
      ListSetReports(dir.value, q, levels, EveryEntry, e);
    }
  }

  /** The same for `listEntries`. */
  ghost predicate UnaskedIn(s: FileCache, q: Path, levels: int, e: Entry) {
    match FindKey(DepthsOf(s.directories), q)
    case None => false
    case Some(key) => key in s.directories && Unasked(s.directories[key], key, q, levels, e)
  }

  /** `listEntries` of an accepted path reports, of what exists, exactly what the filter accepts or is not
      asked about: nothing registered is missing. */
  lemma ListIsNow(s: FileCache, fs: Snapshot, q: Path, maxDepth: int, filter: Entry -> bool, e: Entry)
    requires StateOk(s) && DepthsOk(s.registered) && DepthsOk(DepthsOf(s.directories)) && EachMirrors(s, fs)
    requires |q| <= MAX_INT && Accepts(s.registered, q) && FoundDeepEnough(s, q)
    ensures var levels := Min(maxDepth, DepthFor(s.registered, q));
            e in ListEntries(s, q, maxDepth, filter)
            <==> ListedNow(fs, q, levels, e) && (filter(e) || UnaskedIn(s, q, levels, e))
  {
    var want := DepthFor(s.registered, q);
    QueriesAgreeOnDepths(s.registered, q);
    FoundIsNow(s, fs, q, maxDepth, want, filter, e);
  }

  lemma FoundDirIsNow(c: Cached, key: Path, fs: Snapshot, q: Path, maxDepth: int, want: int, filter: Entry -> bool,
                      e: Entry)
    requires Mirrors(c, key, fs) && -1 <= c.depth && want >= -1 && Covers(c.depth, key, q, want)
    ensures e in (if key == q && c.depth == -1 then {c.entry} else ListAt(c, q, Min(want, maxDepth), filter))
            <==> ListedNow(fs, q, Min(maxDepth, want), e) && (filter(e) || Unasked(c, key, q, Min(maxDepth, want), e))
  {
    if key != q || c.depth != -1 {
      ListAtMirror(c, key, fs, q, Min(maxDepth, want), e);
      ListAtFiltered(c, key, q, Min(maxDepth, want), filter, e);
    }
  }

  lemma FoundIsNow(s: FileCache, fs: Snapshot, q: Path, maxDepth: int, want: int, filter: Entry -> bool, e: Entry)
    requires DepthsOk(DepthsOf(s.directories)) && EachMirrors(s, fs) && want == DepthFor(s.registered, q) && want >= -1
    requires FoundDeepEnough(s, q)
    ensures var levels := Min(maxDepth, want);
            e in ListEntries(s, q, maxDepth, filter)
            <==> ListedNow(fs, q, levels, e) && (filter(e) || UnaskedIn(s, q, levels, e))
  {
    var key := FindKey(DepthsOf(s.directories), q).value;
    FoundDirIsNow(s.directories[key], key, fs, q, maxDepth, want, filter, e);
  }

  ghost predicate AllRegister(calls: seq<Registration>, fs: Snapshot) {
    forall j | 0 <= j < |calls| :: Registers(calls[j], fs)
  }

  /** What a run of `register` keeps. */
  lemma RunFacts(states: seq<FileCache>, calls: seq<Registration>, i: nat)
    requires IsRun(states, calls, AllPass) && i <= |calls|
    ensures StateOk(states[i]) && DepthsOk(states[i].registered) && DepthsOk(DepthsOf(states[i].directories))
  {
    RunsCover(states, calls, AllPass, i);
  }

  lemma RunCall(states: seq<FileCache>, calls: seq<Registration>, i: nat)
    requires IsRun(states, calls, AllPass) && i < |calls|
    ensures RegistersDirectory(calls[i]) && IsStep(states[i], calls[i], AllPass, states[i + 1])
  {
  }

  lemma RunStepMirrors(states: seq<FileCache>, calls: seq<Registration>, fs: Snapshot, i: nat)
    requires IsRun(states, calls, AllPass) && i < |calls| && AllRegister(calls, fs)
    requires AllMirror(states[i], fs)
    ensures AllMirror(states[i + 1], fs)
  {
    RunCall(states, calls, i);
    RunFacts(states, calls, i);
    StepMirrors(states[i], calls[i], fs, states[i + 1]);
  }

  /** After any run of `register` on directories of a file system that stays as it is, every cached
      directory holds what the file system does. */
  lemma {:induction false} RunsMirror(states: seq<FileCache>, calls: seq<Registration>, fs: Snapshot, i: nat)
    requires IsRun(states, calls, AllPass) && i <= |calls| && AllRegister(calls, fs)
    ensures AllMirror(states[i], fs)
    decreases i
  {
    if i > 0 {
      RunsMirror(states, calls, fs, i - 1);
      RunStepMirrors(states, calls, fs, i - 1);
    }
  }

  /** So listing any accepted path to any depth reports, of what exists within that depth and the depth that
      is registered for it, exactly what the filter accepts or is not asked about. */
  lemma RegisteredListing(states: seq<FileCache>, calls: seq<Registration>, fs: Snapshot, i: nat, q: Path,
                          maxDepth: int, filter: Entry -> bool, e: Entry)
    requires IsRun(states, calls, AllPass) && i <= |calls| && AllRegister(calls, fs)
    requires |q| <= MAX_INT && Accepts(states[i].registered, q)
    ensures var levels := Min(maxDepth, DepthFor(states[i].registered, q));
            e in ListEntries(states[i], q, maxDepth, filter)
            <==> ListedNow(fs, q, levels, e) && (filter(e) || UnaskedIn(states[i], q, levels, e))
  {
    RunFacts(states, calls, i);
    RunsMirror(states, calls, fs, i);
    assert FoundDeepEnough(states[i], q) by { RunsCover(states, calls, AllPass, i); }
    ListIsNow(states[i], fs, q, maxDepth, filter, e);
  }

  /** In particular each path that was asked for is listed to the depth it was asked for with. */
  lemma RequestedListing(states: seq<FileCache>, calls: seq<Registration>, fs: Snapshot, i: nat, j: nat, e: Entry)
    requires IsRun(states, calls, AllPass) && j < i <= |calls| && AllRegister(calls, fs)
    ensures e in ListEntries(states[i], calls[j].path, calls[j].maxDepth, EveryEntry)
       <==> ListedNow(fs, calls[j].path, calls[j].maxDepth, e)
  {
    var reg, path, depth := states[i].registered, calls[j].path, calls[j].maxDepth;
    RunsRecord(states, calls, AllPass, i);
    RunFacts(states, calls, i);
    RunCall(states, calls, j);
    assert Recorded(reg, path, depth);
    assert AcceptedBy(path, reg[path], path) && Remaining(reg[path], path, path) == reg[path];
    RegisteredListing(states, calls, fs, i, path, depth, EveryEntry, e);
  }
}
