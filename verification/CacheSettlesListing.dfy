/** What a settled cache lists. Looking a path up does not show all: a file that has become a directory is
    found as one, and is listed all the same. */
module CacheSettlesListing {
  import opened Wrappers
  import opened Entries
  import opened Snapshots
  import opened CacheTree
  import opened CacheInvariants
  import opened CacheListing
  import opened CacheInit
  import opened CacheRemove
  import opened CacheDeliveries
  import opened CacheSettles

  /** A name is kept both as a file and as a directory only where the snapshot has it, and not as a
      directory at the depth limit; no file is kept under an absolute path. */
  ghost predicate Tidy(c: Cached, node: Node) {
    && (forall k <- c.files :: k.Rel?)
    && (forall n <- c.subs ::
          if n in Kids(node) then
            (Key(n) in c.files && Kids(node)[n].Folder? ==> c.depth > 0) && Tidy(c.subs[n], Kids(node)[n])
          else Key(n) !in c.files && Clean(c.subs[n]))
  }

  lemma {:induction false} CleanTidy(c: Cached, node: Node)
    requires Clean(c)
    ensures Tidy(c, node)
    decreases c
  {
    forall n | n in c.subs && n in Kids(node)
      ensures Tidy(c.subs[n], Kids(node)[n])
    {
      CleanTidy(c.subs[n], Kids(node)[n]);
    }
  }

  lemma EntryTidy(c: Cached, entry: Entry, node: Node)
    requires Tidy(c, node)
    ensures Tidy(c.(entry := entry), node)
  {
  }

  /** What `Tidy` asks of one child. */
  ghost predicate TidyAt(c: Cached, node: Node, p: Name) {
    p in c.subs ==>
      if p in Kids(node) then
        (Key(p) in c.files && Kids(node)[p].Folder? ==> c.depth > 0) && Tidy(c.subs[p], Kids(node)[p])
      else Key(p) !in c.files && Clean(c.subs[p])
  }

  /** The rest carries over. */
  lemma TidyChild(c: Cached, c': Cached, p: Name, node: Node)
    requires Tidy(c, node) && OnlyChild(c, c', p) && TidyAt(c', node, p)
    ensures Tidy(c', node)
  {
    forall k | k in c'.files
      ensures k.Rel?
    {
      if k != Key(p) { assert k in c'.files - {Key(p)}; }
    }
    forall n | n in c'.subs
      ensures TidyAt(c', node, n)
    {
      if n != p {
        assert n in c'.subs - {p};
        assert c'.subs[n] == (c'.subs - {p})[n] == (c.subs - {p})[n] == c.subs[n];
        assert Key(n) in c'.files <==> Key(n) in c'.files - {Key(p)};
        assert Key(n) in c.files <==> Key(n) in c.files - {Key(p)};
      }
    }
  }

  // ----- every event keeps the tree tidy

  /** A child directory that is stored, or replaced, by a tidy one. */
  lemma PutTidy(c: Cached, node: Node, p: Name, dir: Cached)
    requires Tidy(c, node) && p in Kids(node) && Tidy(dir, Kids(node)[p])
    requires p in c.subs || c.depth > 0
    ensures Tidy(c.(subs := c.subs[p := dir]), node)
  {
    var c' := c.(subs := c.subs[p := dir]);
    assert OnlyChild(c, c', p);
    TidyChild(c, c', p, node);
  }

  lemma ScannedTidy(path: Path, depth: int, child: Node, fs: Snapshot, p: Name)
    requires WellFormed(child, path + [p]) && depth <= MAX_INT
    ensures Tidy(Scanned(path, depth, child, fs, p), child)
  {
    InitTreeStruct(child, path + [p], Entry(Listed(child, path + [p]), fs.convert(path + [p])),
                   SubdirectoryDepth(depth), AllPass, fs.convert);
    CleanTidy(Scanned(path, depth, child, fs, p), child);
  }

  lemma AddedTidy(c: Cached, path: Path, node: Node, fs: Snapshot, p: Name)
    requires Placed(c, path, node, fs) && Tidy(c, node) && c.depth > 0 && p in Kids(node) && Kids(node)[p].Folder?
    ensures Tidy(AddDirectory(c, p, Stat(fs, path + [p]), AllPass, fs).0, node)
  {
    AddScans(c, path, node, fs, p);
    ScannedTidy(path, c.depth, Kids(node)[p], fs, p);
    PutTidy(c, node, p, Scanned(path, c.depth, Kids(node)[p], fs, p));
  }

  lemma LeafTidy(c: Cached, node: Node, p: Name, entry: Entry, rescan: bool)
    requires Tidy(c, node) && p in Kids(node) && (IsDirectory(entry.tp) <==> Kids(node)[p].Folder?)
    ensures Tidy(LeafTree(c, p, entry, rescan), node)
  {
    LeafOnlyChild(c, p, entry, rescan);
    if p in c.subs { EntryTidy(c.subs[p], entry, Kids(node)[p]); }
    assert Tidy(Cached(entry, -1, map[], map[]), Kids(node)[p]);
    TidyChild(c, LeafTree(c, p, entry, rescan), p, node);
  }

  lemma LastTidy(c: Cached, path: Path, node: Node, fs: Snapshot, p: Name, rescan: bool)
    requires Placed(c, path, node, fs) && Tidy(c, node) && p in Kids(node)
    ensures Tidy(UpdateLast(c, p, Listed(Kids(node)[p], path + [p]), rescan, AllPass, fs).0, node)
  {
    var child := Kids(node)[p];
    var tp := Listed(child, path + [p]);
    if !child.Folder? || c.depth <= 0 {
      LeafTidy(c, node, p, LeafEntry(c, p, tp, fs), rescan);
    } else if p !in c.subs || rescan {
      AddScans(c, path, node, fs, p);
      AddedTidy(c, path, node, fs, p);
    } else {
      var entry := Entry(tp, fs.convert(tp.path.names));
      EntryTidy(c.subs[p], entry, child);
      PutTidy(c, node, p, c.subs[p].(entry := entry));
    }
  }

  lemma {:induction false} UpdatedTidy(c: Cached, path: Path, node: Node, fs: Snapshot, parts: Path, rescan: bool)
    requires Placed(c, path, node, fs) && Tidy(c, node) && parts != [] && NodeAt(node, parts).Some?
    ensures Tidy(UpdateParts(c, parts, Listed(NodeAt(node, parts).value, path + parts), rescan, AllPass, fs).0, node)
    decreases |parts|
  {
    var p, tp := parts[0], Listed(NodeAt(node, parts).value, path + parts);
    DeliverStep(c, path, node, fs, parts);
    if c.depth >= 0 {
      if |parts| == 1 {
        assert parts == [p] && parts[1..] == [];
        LastTidy(c, path, node, fs, p, rescan);
      } else if p in c.subs {
        PlacedSub(c, path, node, fs, p);
        UpdatedTidy(c.subs[p], path + [p], Kids(node)[p], fs, parts[1..], rescan);
        PutTidy(c, node, p, UpdateParts(c.subs[p], parts[1..], tp, rescan, AllPass, fs).0);
      } else if c.depth > 0 {
        MissingStep(c, parts, tp, rescan, fs);
        AddedTidy(c, path, node, fs, p);
      }
    }
  }

  lemma {:induction false} RemovedTidy(c: Cached, path: Path, node: Node, parts: Path)
    requires Struct(c, path) && Tidy(c, node) && parts != []
    ensures Tidy(RemoveParts(c, parts).0, node)
    decreases |parts|
  {
    var p, c' := parts[0], RemoveParts(c, parts).0;
    if |parts| == 1 {
      TidyChild(c, c', p, node);
    } else if p in c.subs {
      if p in Kids(node) {
        RemovedTidy(c.subs[p], path + [p], Kids(node)[p], parts[1..]);
        PutTidy(c, node, p, RemoveParts(c.subs[p], parts[1..]).0);
      } else {
        RemovePartsStruct(c.subs[p], path + [p], parts[1..]);
        PutGone(c, node, p, RemoveParts(c.subs[p], parts[1..]).0);
      }
    }
  }

  /** A child that is gone, and replaced. */
  lemma PutGone(c: Cached, node: Node, p: Name, dir: Cached)
    requires Tidy(c, node) && p in c.subs && p !in Kids(node) && Clean(dir)
    ensures Tidy(c.(subs := c.subs[p := dir]), node)
  {
    var c' := c.(subs := c.subs[p := dir]);
    assert OnlyChild(c, c', p);
    TidyChild(c, c', p, node);
  }

  lemma DeliverTidy(c: Cached, path: Path, node: Node, fs: Snapshot, q: Path, rescan: bool)
    requires Placed(c, path, node, fs) && Tidy(c, node) && c.entry.tp.present && path <= q
    ensures Tidy(Update(c, Reading(fs, q), rescan, AllPass, fs).tree, node)
  {
    if path < q {
      var parts := q[|path|..];
      assert path + parts == q;
      NodeAtSplit(fs.root, path, parts);
      if NodeAt(node, parts).Some? {
        UpdatedTidy(c, path, node, fs, parts, rescan);
      } else {
        RemovedTidy(c, path, node, parts);
      }
    } else if node.Folder? && rescan {
      InitAtStruct(fs, c.entry, c.depth, AllPass);
      CleanTidy(InitAt(fs, c.entry, c.depth, AllPass), node);
    } else {
      EntryTidy(c, OwnEntry(node, path, fs), node);
    }
  }

  lemma {:induction false} StaysTidy(c: Cached, path: Path, node: Node, fs: Snapshot, events: seq<(Path, bool)>)
    requires Placed(c, path, node, fs) && Tidy(c, node) && c.entry.tp.present
    requires forall i | 0 <= i < |events| :: path <= events[i].0
    ensures Tidy(Deliver(c, fs, events), node)
    decreases |events|
  {
    if events != [] {
      var (q, rescan) := events[0];
      DeliverOne(c, path, node, fs, q, rescan);
      DeliverTidy(c, path, node, fs, q, rescan);
      StaysTidy(Update(c, Reading(fs, q), rescan, AllPass, fs).tree, path, node, fs, events[1..]);
    }
  }

  // ----- what is listed

  /** What a tree without names that are both holds as a file, is found as one. */
  lemma {:induction false} FileFound(c: Cached, path: Path, rel: Path)
    requires Struct(c, path) && Clean(c) && FileAt(c, rel)
    ensures At(c, rel).Some? && !IsDirectory(At(c, rel).value.tp)
    decreases |rel|
  {
    if |rel| == 1 {
      assert FileOk(c, path, Key(rel[0]));
    } else {
      FileFound(c.subs[rel[0]], path + [rel[0]], rel[1..]);
    }
  }

  /** In a tree that is right nothing has flipped ... */
  lemma RightUnflipped(c: Cached, path: Path, node: Node, convert: Path -> Value)
    requires Struct(c, path) && Clean(c) && AllRight(c, node, path, convert)
    ensures NoneFlipped(c, node)
  {
    forall rel
      ensures !Stale(c, node, rel) && !FileOver(c, node, rel)
    {
      if rel != [] {
        assert Right(c, node, path, convert, rel);
        if Stale(c, node, rel) { StaleWrong(c, path, node, convert, rel); }
        if FileAt(c, rel) { FileFound(c, path, rel); }
      }
    }
  }

  /** ... and no event makes a name both a file and a directory. */
  lemma StaysClean(c: Cached, path: Path, node: Node, fs: Snapshot, q: Path, rescan: bool)
    requires Placed(c, path, node, fs) && Clean(c) && AllRight(c, node, path, fs.convert) && path <= q
    ensures Clean(Update(c, Reading(fs, q), rescan, AllPass, fs).tree)
  {
    var c' := Update(c, Reading(fs, q), rescan, AllPass, fs).tree;
    CleanTidy(c, node);
    DeliverTidy(c, path, node, fs, q, rescan);
    DeliverOne(c, path, node, fs, q, rescan);
    RightUnflipped(c, path, node, fs.convert);
    forall rel
      ensures !Stale(c', node, rel) && !FileOver(c', node, rel)
    {
      assert rel != [] ==> Outcome(c, c', path, node, fs.convert, q[|path|..], rescan, rel);
    }
    TidyClean(c', path, node);
  }

  /** Nothing that is cached has flipped between file and directory. */
  ghost predicate NoneFlipped(c: Cached, node: Node) {
    forall rel :: !Stale(c, node, rel) && !FileOver(c, node, rel)
  }

  /** A tidy tree in which nothing has flipped keeps files and directories apart. */
  lemma {:induction false} TidyClean(c: Cached, path: Path, node: Node)
    requires Struct(c, path) && Tidy(c, node) && c.entry.tp.present && NoneFlipped(c, node)
    ensures Clean(c)
    decreases c
  {
    forall n | n in c.subs
      ensures Key(n) !in c.files && Clean(c.subs[n])
    {
      if n in Kids(node) {
        assert SubOk(c, n);
        OneFlipped(c, node, n);
        SubFlipped(c, node, n);
        TidyClean(c.subs[n], path + [n], Kids(node)[n]);
      }
    }
  }

  lemma OneFlipped(c: Cached, node: Node, n: Name)
    requires n in c.subs && n in Kids(node)
    ensures !Kids(node)[n].Folder? ==> Stale(c, node, [n])
    ensures Kids(node)[n].Folder? && Key(n) in c.files && c.depth > 0 ==> FileOver(c, node, [n])
  {
    assert [n][1..] == [] && NodeAt(node, [n]) == Some(Kids(node)[n]) && DirAt(c, [n]) == Some(c.subs[n]);
  }

  lemma SubFlipped(c: Cached, node: Node, n: Name)
    requires n in c.subs && n in Kids(node) && NoneFlipped(c, node)
    ensures NoneFlipped(c.subs[n], Kids(node)[n])
  {
    forall rel
      ensures !Stale(c.subs[n], Kids(node)[n], rel) && !FileOver(c.subs[n], Kids(node)[n], rel)
    {
      if rel != [] {
        assert ([n] + rel)[1..] == rel;
        StaleSub(c, node, [n] + rel);
      }
    }
  }

  lemma {:induction false} DirectoryStored(c: Cached, rel: Path)
    requires rel != [] && DirAt(c, rel).Some?
    ensures DirAt(c, rel).value.entry in Everything(c)
    decreases |rel|
  {
    if |rel| == 1 {
      assert rel[1..] == [];
    } else {
      DirectoryStored(c.subs[rel[0]], rel[1..]);
    }
  }

  /** A file kept above the depth limit is stored under its path, and is no directory. */
  lemma {:induction false} FileStored(c: Cached, path: Path, rel: Path) returns (e: Entry)
    requires Struct(c, path) && FileAt(c, rel)
    ensures e in Everything(c) && e.tp.path == Abs(path + rel) && !IsDirectory(e.tp)
    decreases |rel|
  {
    if |rel| == 1 {
      var k := Key(rel[0]);
      assert FileOk(c, path, k) && rel == [rel[0]];
      e := Resolve(PathOf(c.entry), c.files[k]);
    } else {
      e := FileStored(c.subs[rel[0]], path + [rel[0]], rel[1..]);
      assert path + rel == path + [rel[0]] + rel[1..];
    }
  }

  lemma ScanLists(c: Cached, path: Path, node: Node, fs: Snapshot, e: Entry)
    requires Placed(c, path, node, fs) && c.entry.tp.present
    ensures var scan := InitAt(fs, c.entry, c.depth, AllPass);
            e in AllEntries(scan) <==> e.tp.path.Abs? && Look(scan, PathOf(e)) == Some(e)
  {
    InitAtStruct(fs, c.entry, c.depth, AllPass);
    AllEntriesFlat(InitAt(fs, c.entry, c.depth, AllPass), path, e);
  }

  /** What is found at `rel` below a scan. */
  lemma ScanHolds(c: Cached, path: Path, node: Node, fs: Snapshot, rel: Path, e: Entry)
    requires Placed(c, path, node, fs) && c.entry.tp.present && rel != [] && e.tp.path == Abs(path + rel)
    requires e in AllEntries(InitAt(fs, c.entry, c.depth, AllPass))
    ensures ExpectedAt(node, path, c.depth, fs.convert, rel) == Some(e)
  {
    ScanLists(c, path, node, fs, e);
    ScanIsRight(c, path, node, fs, path + rel);
    assert (path + rel)[|path|..] == rel;
  }

  /** What has flipped is listed as it was, and so not as a scan lists it. */
  lemma FlippedListed(c: Cached, path: Path, node: Node, fs: Snapshot, rel: Path) returns (e: Entry)
    requires Placed(c, path, node, fs) && c.entry.tp.present && (Stale(c, node, rel) || FileOver(c, node, rel))
    ensures e in AllEntries(c) && e !in AllEntries(InitAt(fs, c.entry, c.depth, AllPass))
  {
    AllStored(c, path);
    if Stale(c, node, rel) {
      e := DirectoryListed(c, path, rel);
    } else {
      e := FileStored(c, path, rel);
    }
    if e in AllEntries(InitAt(fs, c.entry, c.depth, AllPass)) {
      ScanHolds(c, path, node, fs, rel, e);
      assert false;
    }
  }

  lemma DirectoryListed(c: Cached, path: Path, rel: Path) returns (e: Entry)
    requires Struct(c, path) && rel != [] && DirAt(c, rel).Some?
    ensures e in Everything(c) && e.tp.path == Abs(path + rel) && IsDirectory(e.tp)
  {
    DirectoryEntryAt(c, path, rel);
    AtStruct(c, path, rel);
    DirectoryStored(c, rel);
    e := DirAt(c, rel).value.entry;
  }

  /** When a tidy tree is wrong only where it holds a stale directory, it lists what a scan lists if and only
      if nothing has flipped. */
  lemma SameListing(c: Cached, path: Path, node: Node, fs: Snapshot)
    requires Placed(c, path, node, fs) && Tidy(c, node) && c.entry.tp.present
    requires forall rel | rel != [] :: Right(c, node, path, fs.convert, rel) <==> !Stale(c, node, rel)
    ensures AllEntries(c) == AllEntries(InitAt(fs, c.entry, c.depth, AllPass)) <==> NoneFlipped(c, node)
  {
    var scan := InitAt(fs, c.entry, c.depth, AllPass);
    if NoneFlipped(c, node) {
      TidyClean(c, path, node);
      forall rel | rel != []
        ensures Right(c, node, path, fs.convert, rel)
      {
        assert !Stale(c, node, rel);
      }
      RightIsScan(c, path, node, fs);
      forall e
        ensures e in AllEntries(c) <==> e in AllEntries(scan)
      {
        AllEntriesFlat(c, path, e);
        InitAtStruct(fs, c.entry, c.depth, AllPass);
        AllEntriesFlat(scan, path, e);
      }
    } else {
      var rel :| Stale(c, node, rel) || FileOver(c, node, rel);
      var e := FlippedListed(c, path, node, fs, rel);
    }
  }

  /** Every path that has flipped between file and directory lies strictly below a directory that is rescanned. */
  ghost predicate FlipsRescanned(c: Cached, path: Path, node: Node, events: seq<(Path, bool)>) {
    forall rel | Stale(c, node, rel) || FileOver(c, node, rel) :: RefreshedAbove(path, node, events, rel)
  }

  /** After events for all that differs the cache lists what a fresh scan lists if and only if each path that
      has flipped between file and directory, either way, is rescanned from above, and the own entry is
      right or delivered. */
  lemma SettlesToListing(c: Cached, path: Path, node: Node, fs: Snapshot, events: seq<(Path, bool)>)
    requires Placed(c, path, node, fs) && Tidy(c, node) && c.entry.tp.present
    requires DeliversAll(c, path, node, fs, events)
    ensures AllEntries(Deliver(c, fs, events)) == AllEntries(InitAt(fs, OwnEntry(node, path, fs), c.depth, AllPass))
       <==> FlipsRescanned(c, path, node, events) && OwnRight(c, path, node, fs, events)
  {
    var c' := Deliver(c, fs, events);
    Settles(c, path, node, fs, events);
    StaysTidy(c, path, node, fs, events);
    forall rel | rel != []
      ensures Right(c', node, path, fs.convert, rel) <==> !Stale(c', node, rel)
    {
      assert Ends(c, c', path, node, fs, events, rel);
    }
    FlipsLeft(c, c', path, node, fs, events);
    SameListing(c', path, node, fs);
    if c'.entry != OwnEntry(node, path, fs) {
      OwnEntryListed(c', path, node, fs);
    }
  }

  /** A directory with another own entry does not list what a scan lists. */
  lemma OwnEntryListed(c: Cached, path: Path, node: Node, fs: Snapshot)
    requires Placed(c, path, node, fs) && c.entry != OwnEntry(node, path, fs)
    ensures c.entry in AllEntries(c) && c.entry !in AllEntries(InitAt(fs, OwnEntry(node, path, fs), c.depth, AllPass))
  {
    var own := OwnEntry(node, path, fs);
    InitAtStruct(fs, own, c.depth, AllPass);
    AllStored(InitAt(fs, own, c.depth, AllPass), path);
    if c.entry in Everything(InitAt(fs, own, c.depth, AllPass)) {
      EverythingBelow(InitAt(fs, own, c.depth, AllPass), path, c.entry);
    }
  }

  lemma FlipsLeft(c: Cached, c': Cached, path: Path, node: Node, fs: Snapshot, events: seq<(Path, bool)>)
    requires forall rel | rel != [] :: Ends(c, c', path, node, fs, events, rel)
    ensures NoneFlipped(c', node) <==> FlipsRescanned(c, path, node, events)
  {
    forall rel
      ensures Stale(c', node, rel) <==> Stale(c, node, rel) && !RefreshedAbove(path, node, events, rel)
      ensures FileOver(c', node, rel) <==> FileOver(c, node, rel) && !RefreshedAbove(path, node, events, rel)
    {
      assert rel != [] ==> Ends(c, c', path, node, fs, events, rel);
    }
    if NoneFlipped(c', node) {
      forall rel | Stale(c, node, rel) || FileOver(c, node, rel)
        ensures RefreshedAbove(path, node, events, rel)
      {
        assert !Stale(c', node, rel) && !FileOver(c', node, rel);
      }
    }
  }

  // ----- a file that becomes a directory

  /** A file that has become a directory, without a removal in between: its event breaks the guard, the
      directory is found, and the file is still listed under the same path. */
  lemma FileStaysListed(c: Cached, path: Path, node: Node, fs: Snapshot, parts: Path, rescan: bool) returns (e: Entry)
    requires Placed(c, path, node, fs) && FileOver(c, node, parts) && DirAt(c, parts).None?
    ensures var tp := Listed(NodeAt(node, parts).value, path + parts);
            var c' := UpdateParts(c, parts, tp, rescan, AllPass, fs).0;
            && !KeepsSlotsApart(c, parts, tp, rescan, fs)
            && Right(c', node, path, fs.convert, parts)
            && e in AllEntries(c') && e.tp.path == Abs(path + parts) && !IsDirectory(e.tp)
  {
    var tp := Listed(NodeAt(node, parts).value, path + parts);
    var c' := UpdateParts(c, parts, tp, rescan, AllPass, fs).0;
    FileOverBreaks(c, path, node, fs, parts, rescan);
    DeliverRight(c, path, node, fs, parts, rescan);
    DeliverOutcome(c, path, node, fs, parts, rescan, parts);
    DeliverStep(c, path, node, fs, parts);
    UpdatePartsStruct(c, path, parts, tp, rescan, AllPass, fs);
    e := FileStored(c', path, parts);
    AllStored(c', path);
  }

  lemma {:induction false} FileOverBreaks(c: Cached, path: Path, node: Node, fs: Snapshot, parts: Path, rescan: bool)
    requires Placed(c, path, node, fs) && FileOver(c, node, parts) && DirAt(c, parts).None?
    ensures !KeepsSlotsApart(c, parts, Listed(NodeAt(node, parts).value, path + parts), rescan, fs)
    decreases |parts|
  {
    DeliverStep(c, path, node, fs, parts);
    if |parts| == 1 {
      assert parts == [parts[0]] && parts[1..] == [];
      NodeAtSplit(fs.root, path, parts);
    } else {
      PlacedSub(c, path, node, fs, parts[0]);
      FileOverBreaks(c.subs[parts[0]], path + [parts[0]], Kids(node)[parts[0]], fs, parts[1..], rescan);
    }
  }

  /** The input: a directory caches one file, which becomes an empty directory. With its one event delivered,
      looking paths up gives what a scan gives, and listing does not. */
  lemma FileBecomesDirectory(p: Name, value: Value, convert: Path -> Value, rescan: bool)
    requires p != NoName
    ensures var root := Folder(map[p := Folder(map[], true)], true);
            var fs := Snapshot(root, convert);
            var file := Entry(TypedPath(Key(p), true, FILE), value);
            var c := Cached(OwnEntry(root, [], fs), 1, map[Key(p) := file], map[]);
            && Placed(c, [], root, fs) && Clean(c) && DeliversAll(c, [], root, fs, [([p], rescan)])
            && var c', scan := Deliver(c, fs, [([p], rescan)]), InitAt(fs, c.entry, c.depth, AllPass);
            && Flat(c') == Flat(scan) && AllEntries(c') != AllEntries(scan)
  {
    var root := Folder(map[p := Folder(map[], true)], true);
    var fs := Snapshot(root, convert);
    var file := Entry(TypedPath(Key(p), true, FILE), value);
    var c := Cached(OwnEntry(root, [], fs), 1, map[Key(p) := file], map[]);
    var events := [([p], rescan)];
    assert WellFormed(Folder(map[], true), [p]) && NodeAt(root, [p]) == Some(Folder(map[], true));
    assert FileOk(c, [], Key(p)) by { assert ResolvePath([], Key(p)) == [] + [p]; }
    forall rel | rel != []
      ensures Accounted(c, [], root, fs, events, rel)
    {
      if rel == [p] {
        assert events[0].0 == [] + rel;
      } else {
        assert At(c, rel).None? && NodeAt(root, rel).None? by { assert |rel| == 1 ==> rel == [rel[0]]; }
      }
    }
    SettlesToScan(c, [], root, fs, events);
    CleanTidy(c, root);
    SettlesToListing(c, [], root, fs, events);
    assert FileOver(c, root, [p]);
    assert !RefreshedAbove([], root, events, [p]);
  }
}
