/** What one delivered event does to a cached directory, when the file system stays as it is. */
module CacheDeliveries {
  import opened Wrappers
  import opened Entries
  import opened Snapshots
  import opened CacheTree
  import opened CacheInvariants
  import opened CacheListing
  import opened CacheInit
  import opened CacheRemove

  function Kids(node: Node): map<Name, Node> {
    if node.Folder? then node.children else map[]
  }

  /** The path `rel` below `c` is cached as the snapshot has it. */
  ghost predicate Right(c: Cached, node: Node, path: Path, convert: Path -> Value, rel: Path) {
    At(c, rel) == ExpectedAt(node, path, c.depth, convert, rel)
  }

  /** A cached directory that has become something else. */
  predicate Stale(c: Cached, node: Node, rel: Path) {
    rel != [] && DirAt(c, rel).Some? && NodeAt(node, rel).Some? && !NodeAt(node, rel).value.Folder?
  }

  /** Above the depth limit an entry is kept at `rel` as a file. */
  predicate FileAt(c: Cached, rel: Path) {
    && rel != []
    && if |rel| == 1 then c.depth > 0 && Key(rel[0]) in c.files
       else rel[0] in c.subs && FileAt(c.subs[rel[0]], rel[1..])
  }

  /** A cached file that has become a directory. */
  predicate FileOver(c: Cached, node: Node, rel: Path) {
    FileAt(c, rel) && NodeAt(node, rel).Some? && NodeAt(node, rel).value.Folder?
  }

  /** The directory `c` at `path` in the snapshot. */
  ghost predicate Placed(c: Cached, path: Path, node: Node, fs: Snapshot) {
    Struct(c, path) && WellFormed(fs.root, []) && NodeAt(fs.root, path) == Some(node)
  }

  lemma ChildNode(node: Node, p: Name)
    requires p in Kids(node)
    ensures NodeAt(node, [p]) == Some(Kids(node)[p])
  {
    assert [p][1..] == [];
  }

  lemma PlacedSub(c: Cached, path: Path, node: Node, fs: Snapshot, p: Name)
    requires Placed(c, path, node, fs) && p in c.subs && p in Kids(node)
    ensures Placed(c.subs[p], path + [p], Kids(node)[p], fs) && SubOk(c, p)
  {
    assert SubOk(c, p);
    NodeAtSplit(fs.root, path, [p]);
    assert NodeAt(node, [p]) == Some(Kids(node)[p]) by { assert [p][1..] == []; }
  }

  /** A stale directory is cached as a directory, and so not as the snapshot has it. */
  lemma StaleWrong(c: Cached, path: Path, node: Node, convert: Path -> Value, rel: Path)
    requires Struct(c, path) && Stale(c, node, rel)
    ensures !Right(c, node, path, convert, rel)
  {
    DirectoryEntryAt(c, path, rel);
  }

  /** A scan holds the directories of the snapshot as directories, and nothing else. */
  lemma {:induction false} ScanNotStale(node: Node, path: Path, entry: Entry, depth: int, accept: TypedPath -> bool,
                                        convert: Path -> Value, rel: Path)
    requires node.Folder?
    ensures var c := InitTree(node, path, entry, depth, accept, convert);
            && (DirAt(c, rel).Some? ==> NodeAt(node, rel).Some? && NodeAt(node, rel).value.Folder?)
            && !FileOver(c, node, rel)
    decreases |rel|
  {
    var c := InitTree(node, path, entry, depth, accept, convert);
    if rel != [] && rel[0] in c.subs {
      var n := rel[0];
      var sub := Entry(Listed(node.children[n], path + [n]), convert(path + [n]));
      assert c.subs[n] == InitTree(node.children[n], path + [n], sub, SubdirectoryDepth(depth), accept, convert);
      ScanNotStale(node.children[n], path + [n], sub, SubdirectoryDepth(depth), accept, convert, rel[1..]);
    } else if |rel| == 1 && Key(rel[0]) in c.files {
      assert rel[1..] == [] && NodeAt(node, rel) == Some(node.children[rel[0]]);
    }
  }

  // ----- what one delivery does to one path

  /** The event for `parts` refreshes all below it: the path is gone, or a directory that is rescanned. */
  predicate Refreshes(node: Node, parts: Path, rescan: bool, rel: Path) {
    && parts < rel
    && match NodeAt(node, parts) case None => true case Some(n) => rescan && n.Folder?
  }

  /** What delivering `parts` does to the path `rel`: a stale directory stays, and so does the file
      entry of what has become a directory, unless it lies below a path that is refreshed; a right path
      stays right; the delivered path becomes right, unless it is stale; and everything below a
      refreshed path becomes right. */
  ghost predicate Outcome(c: Cached, c': Cached, path: Path, node: Node, convert: Path -> Value, parts: Path,
                          rescan: bool, rel: Path)
  {
    && (Stale(c', node, rel) <==> Stale(c, node, rel) && !Refreshes(node, parts, rescan, rel))
    && (FileOver(c', node, rel) <==> FileOver(c, node, rel) && !Refreshes(node, parts, rescan, rel))
    && (Right(c, node, path, convert, rel) ==> Right(c', node, path, convert, rel))
    && (rel == parts && !Stale(c, node, rel) ==> Right(c', node, path, convert, rel))
    && (Refreshes(node, parts, rescan, rel) ==> Right(c', node, path, convert, rel))
  }

  /** A step at the child `p` that leaves everything else alone. */
  ghost predicate OnlyChild(c: Cached, c': Cached, p: Name) {
    && c'.entry == c.entry && c'.depth == c.depth
    && c.files - {Key(p)} == c'.files - {Key(p)}
    && c.subs - {p} == c'.subs - {p}
  }

  lemma OtherChild(c: Cached, c': Cached, p: Name, rel: Path)
    requires OnlyChild(c, c', p) && rel != [] && rel[0] != p
    ensures At(c', rel) == At(c, rel) && DirAt(c', rel) == DirAt(c, rel) && FileAt(c', rel) == FileAt(c, rel)
  {
    var n := rel[0];
    assert n in c.subs <==> n in c.subs - {p};
    assert n in c'.subs <==> n in c'.subs - {p};
    assert n in c.subs ==> c.subs[n] == (c.subs - {p})[n];
    assert n in c'.subs ==> c'.subs[n] == (c'.subs - {p})[n];
    assert Key(n) in c.files <==> Key(n) in c.files - {Key(p)};
    assert Key(n) in c'.files <==> Key(n) in c'.files - {Key(p)};
    assert Key(n) in c.files ==> c.files[Key(n)] == (c.files - {Key(p)})[Key(n)];
    assert Key(n) in c'.files ==> c'.files[Key(n)] == (c'.files - {Key(p)})[Key(n)];
  }

  /** Paths that are not below the child `p` are not touched. */
  lemma OutcomeElsewhere(c: Cached, c': Cached, path: Path, node: Node, convert: Path -> Value, parts: Path,
                         rescan: bool, p: Name, rel: Path)
    requires OnlyChild(c, c', p) && parts != [] && parts[0] == p && rel != [] && rel[0] != p
    ensures Outcome(c, c', path, node, convert, parts, rescan, rel)
  {
    OtherChild(c, c', p, rel);
  }

  /** What `addDirectory` stores for a directory of the snapshot. */
  function Scanned(path: Path, depth: int, child: Node, fs: Snapshot, p: Name): Cached {
    InitTree(child, path + [p], Entry(Listed(child, path + [p]), fs.convert(path + [p])), SubdirectoryDepth(depth),
             AllPass, fs.convert)
  }

  lemma AddScans(c: Cached, path: Path, node: Node, fs: Snapshot, p: Name)
    requires Placed(c, path, node, fs) && c.depth > 0 && p in Kids(node) && Kids(node)[p].Folder?
    ensures var tp := Listed(Kids(node)[p], path + [p]);
            && Stat(fs, path + [p]) == tp && ListDirectory(fs, path + [p]) != Failed(NoSuchFile)
            && AddDirectory(c, p, tp, AllPass, fs).0
               == c.(subs := c.subs[p := Scanned(path, c.depth, Kids(node)[p], fs, p)])
    ensures WellFormed(Kids(node)[p], path + [p])
  {
    var child := Kids(node)[p];
    NodeAtSplit(fs.root, path, [p]);
    assert NodeAt(node, [p]) == Some(child) by { assert [p][1..] == []; }
    WellFormedAt(fs.root, [], path + [p]);
    assert [] + (path + [p]) == path + [p];
  }

  /** `addDirectory` on a directory of the snapshot makes everything at or below it right. */
  lemma AddedIsRight(c: Cached, path: Path, node: Node, fs: Snapshot, p: Name, rel: Path)
    requires Struct(c, path) && c.depth > 0 && p in Kids(node) && rel != [] && rel[0] == p
    requires WellFormed(Kids(node)[p], path + [p])
    ensures Right(c.(subs := c.subs[p := Scanned(path, c.depth, Kids(node)[p], fs, p)]), node, path, fs.convert, rel)
  {
    var child, rest := Kids(node)[p], rel[1..];
    var entry := Entry(Listed(child, path + [p]), fs.convert(path + [p]));
    var c' := c.(subs := c.subs[p := Scanned(path, c.depth, child, fs, p)]);
    assert path + rel == path + [p] + rest;
    assert rest == [] ==> path + rel == path + [p];
    assert At(c', rel) == At(c'.subs[p], rest) && NodeAt(node, rel) == NodeAt(child, rest);
    if rest != [] {
      InitIsSnapshot(child, path + [p], entry, SubdirectoryDepth(c.depth), fs.convert, rest);
    }
  }

  /** Scanning a child makes everything at or below it right. */
  lemma AddedOutcome(c: Cached, path: Path, node: Node, fs: Snapshot, parts: Path, rescan: bool, rel: Path)
    requires Placed(c, path, node, fs) && c.depth > 0 && parts != [] && rel != []
    requires parts[0] in Kids(node) && Kids(node)[parts[0]].Folder?
    requires parts[0] !in c.subs || (rescan && |parts| == 1)
    ensures Outcome(c, AddDirectory(c, parts[0], Stat(fs, path + [parts[0]]), AllPass, fs).0, path, node, fs.convert,
                    parts, rescan, rel)
  {
    var p := parts[0];
    AddScans(c, path, node, fs, p);
    var c' := c.(subs := c.subs[p := Scanned(path, c.depth, Kids(node)[p], fs, p)]);
    if rel[0] != p {
      assert OnlyChild(c, c', p);
      OutcomeElsewhere(c, c', path, node, fs.convert, parts, rescan, p, rel);
    } else {
      AddedIsRight(c, path, node, fs, p, rel);
      AddedNotStale(c, path, node, fs, p, rel);
      StaleBefore(c, node, parts, rescan, rel);
    }
  }

  /** What had flipped below a child that is scanned, lies strictly below a rescanned path. */
  lemma StaleBefore(c: Cached, node: Node, parts: Path, rescan: bool, rel: Path)
    requires parts != [] && rel != [] && rel[0] == parts[0] && parts[0] in Kids(node) && Kids(node)[parts[0]].Folder?
    requires parts[0] !in c.subs || (rescan && |parts| == 1)
    ensures Stale(c, node, rel) || (|rel| > 1 && FileAt(c, rel)) ==> Refreshes(node, parts, rescan, rel)
  {
    if |rel| == 1 {
      assert rel == [parts[0]] && rel[1..] == [] && NodeAt(node, rel) == Some(Kids(node)[parts[0]]);
    }
  }

  lemma AddedNotStale(c: Cached, path: Path, node: Node, fs: Snapshot, p: Name, rel: Path)
    requires p in Kids(node) && Kids(node)[p].Folder? && rel != [] && rel[0] == p
    ensures var c' := c.(subs := c.subs[p := Scanned(path, c.depth, Kids(node)[p], fs, p)]);
            !Stale(c', node, rel) && (|rel| > 1 ==> !FileOver(c', node, rel))
  {
    ScanNotStale(Kids(node)[p], path + [p], Entry(Listed(Kids(node)[p], path + [p]), fs.convert(path + [p])),
                 SubdirectoryDepth(c.depth), AllPass, fs.convert, rel[1..]);
  }

  lemma {:induction false} FromSnapshot(node: Node, path: Path, rel: Path)
    requires WellFormed(node, path) && NodeAt(node, rel).Some?
    ensures Proper(rel) && |path + rel| <= MAX_INT
    decreases |rel|
  {
    if rel != [] {
      FromSnapshot(node.children[rel[0]], path + [rel[0]], rel[1..]);
    }
  }

  /** Rightness below a child, seen from the child. */
  lemma RightSub(c: Cached, path: Path, node: Node, convert: Path -> Value, rel: Path)
    requires 0 < c.depth <= MAX_INT && |rel| > 1 && rel[0] in c.subs && rel[0] in Kids(node)
    requires c.subs[rel[0]].depth == SubdirectoryDepth(c.depth)
    ensures Right(c, node, path, convert, rel)
        <==> Right(c.subs[rel[0]], Kids(node)[rel[0]], path + [rel[0]], convert, rel[1..])
  {
    assert path + rel == path + [rel[0]] + rel[1..];
    assert NodeAt(node, rel) == NodeAt(Kids(node)[rel[0]], rel[1..]);
    assert At(c, rel) == At(c.subs[rel[0]], rel[1..]);
  }

  /** Staleness below a child, seen from the child. */
  lemma StaleSub(c: Cached, node: Node, rel: Path)
    requires |rel| > 1 && rel[0] in c.subs && rel[0] in Kids(node)
    ensures Stale(c, node, rel) <==> Stale(c.subs[rel[0]], Kids(node)[rel[0]], rel[1..])
    ensures FileOver(c, node, rel) <==> FileOver(c.subs[rel[0]], Kids(node)[rel[0]], rel[1..])
  {
  }

  /** A path that is no directory, stored as a file: right unless it is still cached as a directory. */
  lemma FileOutcome(c: Cached, path: Path, node: Node, fs: Snapshot, p: Name, rescan: bool, rel: Path)
    requires Placed(c, path, node, fs) && c.depth >= 0 && p in Kids(node) && !Kids(node)[p].Folder?
    requires rel != [] && rel[0] == p
    ensures var entry := Entry(Listed(Kids(node)[p], path + [p]), fs.convert(path + [p]));
            Outcome(c, c.(files := c.files[Key(p) := entry]), path, node, fs.convert, [p], rescan, rel)
  {
    ChildNode(node, p);
    var entry := Entry(Listed(Kids(node)[p], path + [p]), fs.convert(path + [p]));
    var c' := c.(files := c.files[Key(p) := entry]);
    assert NodeAt(node, rel) == NodeAt(Kids(node)[p], rel[1..]);
    if |rel| == 1 {
      assert rel == [p] && path + rel == path + [p] && rel[1..] == [];
      if p in c.subs {
        StaleWrong(c, path, node, fs.convert, rel);
      }
    }
  }

  /** Nothing is cached below an empty directory. */
  lemma NothingBelow(c: Cached, rel: Path)
    requires c.subs == map[] && c.files == map[] && rel != []
    ensures DirAt(c, rel).None? && At(c, rel).None? && !FileAt(c, rel)
  {
  }

  /** A directory at the depth limit: its entry becomes right, and nothing is cached below it. */
  lemma LimitOutcome(c: Cached, path: Path, node: Node, fs: Snapshot, p: Name, rescan: bool, rel: Path)
    requires Placed(c, path, node, fs) && c.depth == 0 && p in Kids(node) && Kids(node)[p].Folder?
    requires rel != [] && rel[0] == p
    ensures var entry := Entry(Listed(Kids(node)[p], path + [p]), fs.convert(path + [p]));
            Outcome(c, LeafTree(c, p, entry, rescan), path, node, fs.convert, [p], rescan, rel)
  {
    ChildNode(node, p);
    var entry := Entry(Listed(Kids(node)[p], path + [p]), fs.convert(path + [p]));
    var c' := LeafTree(c, p, entry, rescan);
    assert NodeAt(node, rel) == NodeAt(Kids(node)[p], rel[1..]);
    if p in c.subs {
      assert SubOk(c, p) && Struct(c.subs[p], path + [p]);
      assert c.subs[p].subs == map[] && c.subs[p].files == map[];
    }
    assert c'.subs[p].entry == entry && c'.subs[p].subs == map[] && c'.subs[p].files == map[];
    assert At(c', rel) == At(c'.subs[p], rel[1..]) && DirAt(c', rel) == DirAt(c'.subs[p], rel[1..]);
    if |rel| == 1 {
      assert rel == [p] && path + rel == path + [p] && rel[1..] == [];
      assert !Stale(c, node, rel) && !Stale(c', node, rel);
    } else {
      NothingBelow(c'.subs[p], rel[1..]);
      if p in c.subs { NothingBelow(c.subs[p], rel[1..]); }
      assert DirAt(c, rel).None? && DirAt(c', rel).None? && !FileAt(c, rel) && !FileAt(c', rel);
    }
  }

  lemma LookEntryBelow(c: Cached, path: Path, entry: Entry, rel: Path)
    requires c.entry.tp.path == Abs(path) == entry.tp.path && rel != []
    ensures At(c.(entry := entry), rel) == At(c, rel) && DirAt(c.(entry := entry), rel) == DirAt(c, rel)
    ensures FileAt(c.(entry := entry), rel) == FileAt(c, rel)
  {
  }

  /** A directory above the depth limit that keeps its contents and gets its entry. */
  lemma InPlaceOutcome(c: Cached, path: Path, node: Node, fs: Snapshot, p: Name, rel: Path)
    requires Placed(c, path, node, fs) && c.depth > 0 && p in c.subs && p in Kids(node) && Kids(node)[p].Folder?
    requires rel != [] && rel[0] == p
    ensures var entry := Entry(Listed(Kids(node)[p], path + [p]), fs.convert(path + [p]));
            Outcome(c, c.(subs := c.subs[p := c.subs[p].(entry := entry)]), path, node, fs.convert, [p], false, rel)
  {
    ChildNode(node, p);
    var entry := Entry(Listed(Kids(node)[p], path + [p]), fs.convert(path + [p]));
    var c' := c.(subs := c.subs[p := c.subs[p].(entry := entry)]);
    assert At(c', rel) == At(c'.subs[p], rel[1..]) && At(c, rel) == At(c.subs[p], rel[1..]);
    assert DirAt(c', rel) == DirAt(c'.subs[p], rel[1..]) && DirAt(c, rel) == DirAt(c.subs[p], rel[1..]);
    assert NodeAt(node, rel) == NodeAt(Kids(node)[p], rel[1..]);
    if |rel| == 1 {
      assert rel == [p] && path + rel == path + [p] && rel[1..] == [];
      assert !Stale(c, node, rel) && !Stale(c', node, rel);
    } else {
      assert Struct(c.subs[p], path + [p]);
      LookEntryBelow(c.subs[p], path + [p], entry, rel[1..]);
    }
  }

  lemma LeafOnlyChild(c: Cached, p: Name, entry: Entry, rescan: bool)
    ensures OnlyChild(c, LeafTree(c, p, entry, rescan), p)
  {
  }

  /** `update` at the last name. */
  lemma LastOutcome(c: Cached, path: Path, node: Node, fs: Snapshot, p: Name, rescan: bool, rel: Path)
    requires Placed(c, path, node, fs) && c.depth >= 0 && p in Kids(node) && rel != []
    ensures Outcome(c, UpdateLast(c, p, Listed(Kids(node)[p], path + [p]), rescan, AllPass, fs).0, path, node,
                    fs.convert, [p], rescan, rel)
  {
    var child := Kids(node)[p];
    var tp := Listed(child, path + [p]);
    var entry := Entry(tp, fs.convert(path + [p]));
    var c' := UpdateLast(c, p, tp, rescan, AllPass, fs).0;
    if !child.Folder? || c.depth == 0 {
      assert LeafEntry(c, p, tp, fs) == entry && c' == LeafTree(c, p, entry, rescan);
      if rel[0] != p {
        LeafOnlyChild(c, p, entry, rescan);
        OutcomeElsewhere(c, c', path, node, fs.convert, [p], rescan, p, rel);
      } else if child.Folder? {
        LimitOutcome(c, path, node, fs, p, rescan, rel);
      } else {
        FileOutcome(c, path, node, fs, p, rescan, rel);
      }
    } else if p !in c.subs || rescan {
      AddScans(c, path, node, fs, p);
      AddedOutcome(c, path, node, fs, [p], rescan, rel);
    } else if rel[0] != p {
      assert OnlyChild(c, c', p);
      OutcomeElsewhere(c, c', path, node, fs.convert, [p], rescan, p, rel);
    } else {
      InPlaceOutcome(c, path, node, fs, p, rel);
    }
  }

  lemma DeliverStep(c: Cached, path: Path, node: Node, fs: Snapshot, parts: Path)
    requires Placed(c, path, node, fs) && parts != [] && NodeAt(node, parts).Some?
    ensures parts[0] in Kids(node) && parts[0] != NoName
    ensures path + parts == path + [parts[0]] + parts[1..]
    ensures NodeAt(Kids(node)[parts[0]], parts[1..]) == NodeAt(node, parts)
    ensures ValidUpdate(path, parts, Listed(NodeAt(node, parts).value, path + parts), fs)
  {
    WellFormedAt(fs.root, [], path);
    assert [] + path == path;
    FromSnapshot(node, path, parts);
    assert parts[0] in parts;
  }

  /** Beyond the depth limit nothing is cached, and nothing should be. */
  lemma BeyondOutcome(c: Cached, path: Path, node: Node, convert: Path -> Value, parts: Path, rescan: bool, rel: Path)
    requires Struct(c, path) && parts != [] && (c.depth < 0 || (c.depth == 0 && |parts| > 1))
    ensures Outcome(c, c, path, node, convert, parts, rescan, rel)
  {
    if |rel| > 1 || c.depth < 0 {
      if rel != [] && rel[0] in c.subs {
        assert SubOk(c, rel[0]) && Struct(c.subs[rel[0]], path + [rel[0]]);
        assert c.subs[rel[0]].subs == map[] && c.subs[rel[0]].files == map[];
        assert DirAt(c, rel) == DirAt(c.subs[rel[0]], rel[1..]) && At(c, rel) == At(c.subs[rel[0]], rel[1..]);
        if |rel| > 1 { NothingBelow(c.subs[rel[0]], rel[1..]); }
      }
      assert rel != [] ==> DirAt(c, rel).None? && At(c, rel).None? && !FileAt(c, rel);
    }
  }

  lemma MissingStep(c: Cached, parts: Path, tp: TypedPath, rescan: bool, fs: Snapshot)
    requires |parts| > 1 && c.depth > 0 && parts[0] !in c.subs && parts[0] != NoName
    ensures UpdateParts(c, parts, tp, rescan, AllPass, fs)
         == AddDirectory(c, parts[0], Stat(fs, PathOf(c.entry) + [parts[0]]), AllPass, fs)
  {
  }

  /** What `update` for an existing path does to any path, in every reachable tree. */
  lemma {:induction false} DeliverOutcome(c: Cached, path: Path, node: Node, fs: Snapshot, parts: Path, rescan: bool,
                                          rel: Path)
    requires Placed(c, path, node, fs) && parts != [] && NodeAt(node, parts).Some? && rel != []
    ensures Outcome(c, UpdateParts(c, parts, Listed(NodeAt(node, parts).value, path + parts), rescan, AllPass, fs).0,
                    path, node, fs.convert, parts, rescan, rel)
    decreases |parts|
  {
    var p := parts[0];
    DeliverStep(c, path, node, fs, parts);
    if c.depth < 0 {
      BeyondOutcome(c, path, node, fs.convert, parts, rescan, rel);
    } else if |parts| == 1 {
      assert parts == [p] && parts[1..] == [];
      LastOutcome(c, path, node, fs, p, rescan, rel);
    } else if p in c.subs {
      DeliverBelow(c, path, node, fs, parts, rescan, rel);
    } else if c.depth > 0 {
      MissingStep(c, parts, Listed(NodeAt(node, parts).value, path + parts), rescan, fs);
      AddedOutcome(c, path, node, fs, parts, rescan, rel);
    } else {
      BeyondOutcome(c, path, node, fs.convert, parts, rescan, rel);
    }
  }

  lemma {:induction false} DeliverBelow(c: Cached, path: Path, node: Node, fs: Snapshot, parts: Path, rescan: bool,
                                        rel: Path)
    requires Placed(c, path, node, fs) && |parts| > 1 && NodeAt(node, parts).Some? && rel != []
    requires c.depth >= 0 && parts[0] in c.subs
    ensures Outcome(c, UpdateParts(c, parts, Listed(NodeAt(node, parts).value, path + parts), rescan, AllPass, fs).0,
                    path, node, fs.convert, parts, rescan, rel)
    decreases |parts|, 0
  {
    var tp := Listed(NodeAt(node, parts).value, path + parts);
    var p, rest := parts[0], parts[1..];
    DeliverStep(c, path, node, fs, parts);
    PlacedSub(c, path, node, fs, p);
    var sub := UpdateParts(c.subs[p], rest, tp, rescan, AllPass, fs).0;
    UpdatePartsStruct(c.subs[p], path + [p], rest, tp, rescan, AllPass, fs);
    var c' := c.(subs := c.subs[p := sub]);
    assert OnlyChild(c, c', p);
    if c.depth == 0 {
      assert sub == c.subs[p] && c' == c;
      BeyondOutcome(c, path, node, fs.convert, parts, rescan, rel);
    } else if rel[0] != p {
      OutcomeElsewhere(c, c', path, node, fs.convert, parts, rescan, p, rel);
    } else if |rel| > 1 {
      DeliverOutcome(c.subs[p], path + [p], Kids(node)[p], fs, rest, rescan, rel[1..]);
      LiftOutcome(c, path, node, fs.convert, parts, rescan, sub, rel);
    } else {
      assert rel == [p] && rel[1..] == [];
      assert At(c', rel) == Some(sub.entry) && At(c, rel) == Some(c.subs[p].entry);
      assert DirAt(c', rel) == Some(sub) && DirAt(c, rel) == Some(c.subs[p]);
    }
  }

  /** What happens below a child, seen from its parent. */
  lemma LiftOutcome(c: Cached, path: Path, node: Node, convert: Path -> Value, parts: Path, rescan: bool, sub: Cached,
                    rel: Path)
    requires 0 < c.depth <= MAX_INT && |parts| > 1 && |rel| > 1 && parts[0] == rel[0]
    requires rel[0] in c.subs && rel[0] in Kids(node)
    requires c.subs[rel[0]].depth == SubdirectoryDepth(c.depth) == sub.depth
    requires Outcome(c.subs[rel[0]], sub, path + [rel[0]], Kids(node)[rel[0]], convert, parts[1..], rescan, rel[1..])
    ensures Outcome(c, c.(subs := c.subs[rel[0] := sub]), path, node, convert, parts, rescan, rel)
  {
    var c' := c.(subs := c.subs[rel[0] := sub]);
    RightSub(c, path, node, convert, rel);
    RightSub(c', path, node, convert, rel);
    StaleSub(c, node, rel);
    StaleSub(c', node, rel);
    assert parts == [rel[0]] + parts[1..] && rel == [rel[0]] + rel[1..];
    assert rel == parts <==> rel[1..] == parts[1..];
    assert parts < rel <==> parts[1..] < rel[1..];
  }

  /** `update(p)` for an existing path makes `p` right if and only if it is a directory or not cached as
      one; every other path that is right stays right. */
  lemma DeliverRight(c: Cached, path: Path, node: Node, fs: Snapshot, parts: Path, rescan: bool)
    requires Placed(c, path, node, fs) && parts != [] && NodeAt(node, parts).Some?
    ensures var c' := UpdateParts(c, parts, Listed(NodeAt(node, parts).value, path + parts), rescan, AllPass, fs).0;
            && (Right(c', node, path, fs.convert, parts)
                <==> NodeAt(node, parts).value.Folder? || DirAt(c, parts).None?)
            && forall rel | rel != [] && Right(c, node, path, fs.convert, rel) :: Right(c', node, path, fs.convert, rel)
  {
    var tp := Listed(NodeAt(node, parts).value, path + parts);
    var c' := UpdateParts(c, parts, tp, rescan, AllPass, fs).0;
    DeliverStep(c, path, node, fs, parts);
    UpdatePartsStruct(c, path, parts, tp, rescan, AllPass, fs);
    DeliverOutcome(c, path, node, fs, parts, rescan, parts);
    if Stale(c', node, parts) {
      StaleWrong(c', path, node, fs.convert, parts);
    }
    forall rel | rel != [] && Right(c, node, path, fs.convert, rel)
      ensures Right(c', node, path, fs.convert, rel)
    {
      DeliverOutcome(c, path, node, fs, parts, rescan, rel);
    }
  }

  /** So a directory that became something else, without a removal in between, stays cached as a
      directory when its own event is delivered, whatever the rescan flag and however deep it lies. */
  lemma FlippedStaysWrong(c: Cached, path: Path, node: Node, fs: Snapshot, parts: Path, rescan: bool)
    requires Placed(c, path, node, fs) && Stale(c, node, parts)
    ensures var c' := UpdateParts(c, parts, Listed(NodeAt(node, parts).value, path + parts), rescan, AllPass, fs).0;
            Stale(c', node, parts) && !Right(c', node, path, fs.convert, parts)
  {
    DeliverRight(c, path, node, fs, parts, rescan);
    DeliverOutcome(c, path, node, fs, parts, rescan, parts);
  }

  // ----- a missing path is delivered

  lemma {:induction false} MissingBelow(node: Node, rel: Path, i: nat)
    requires i <= |rel| && NodeAt(node, rel).Some?
    ensures NodeAt(node, rel[..i]).Some?
    decreases i
  {
    if i > 0 {
      MissingBelow(node.children[rel[0]], rel[1..], i - 1);
      assert rel[..i][1..] == rel[1..][..i - 1];
    }
  }

  lemma PrefixCancel(path: Path, a: Path, b: Path)
    ensures path + a <= path + b <==> a <= b
  {
    if a <= b {
      assert path + b == path + a + b[|a|..];
    }
    if path + a <= path + b {
      assert forall i | 0 <= i < |a| :: a[i] == (path + a)[|path| + i] == (path + b)[|path| + i];
    }
  }

  /** The event of a path that is gone makes it and all below it right, and no other path wrong, in every
      reachable tree. */
  lemma RemovedRight(c: Cached, path: Path, node: Node, fs: Snapshot, parts: Path, rel: Path)
    requires Placed(c, path, node, fs) && parts != [] && NodeAt(node, parts).None?
    requires rel != [] && (parts <= rel || Right(c, node, path, fs.convert, rel))
    ensures Right(RemoveParts(c, parts).0, node, path, fs.convert, rel)
  {
    RemovePartsStruct(c, path, parts);
    RemovePartsLook(c, path, parts, path + rel);
    assert (path + rel)[|path|..] == rel;
    PrefixCancel(path, parts, rel);
    if parts <= rel {
      assert rel[..|parts|] == parts;
      if NodeAt(node, rel).Some? { MissingBelow(node, rel, |parts|); }
    }
  }

  /** Removing a path takes away nothing that does not lie at or below it. */
  lemma {:induction false} RemovedDirAt(c: Cached, parts: Path, rel: Path)
    requires parts != [] && !(parts <= rel)
    ensures DirAt(RemoveParts(c, parts).0, rel).Some? <==> DirAt(c, rel).Some?
    ensures FileAt(RemoveParts(c, parts).0, rel) <==> FileAt(c, rel)
    decreases |parts|
  {
    if rel != [] {
      if |parts| == 1 {
        assert parts == [parts[0]];
        assert [rel[0]] <= rel;
      } else if parts[0] in c.subs && rel[0] == parts[0] {
        assert parts == [parts[0]] + parts[1..] && rel == [rel[0]] + rel[1..];
        RemovedDirAt(c.subs[parts[0]], parts[1..], rel[1..]);
      }
    }
  }

  lemma RemovedOutcome(c: Cached, path: Path, node: Node, fs: Snapshot, parts: Path, rescan: bool, rel: Path)
    requires Placed(c, path, node, fs) && parts != [] && NodeAt(node, parts).None? && rel != []
    ensures Outcome(c, RemoveParts(c, parts).0, path, node, fs.convert, parts, rescan, rel)
  {
    if parts <= rel {
      assert rel[..|parts|] == parts;
      if NodeAt(node, rel).Some? { MissingBelow(node, rel, |parts|); }
    } else {
      RemovedDirAt(c, parts, rel);
    }
    if parts <= rel || Right(c, node, path, fs.convert, rel) {
      RemovedRight(c, path, node, fs, parts, rel);
    }
  }

  lemma {:induction false} RemovePartsSame(c: Cached, parts: Path)
    requires parts != []
    ensures RemoveParts(c, parts).0.entry == c.entry && RemoveParts(c, parts).0.depth == c.depth
  {
  }

  // ----- any delivery

  lemma ScanIsRight(c: Cached, path: Path, node: Node, fs: Snapshot, q: Path)
    requires Placed(c, path, node, fs)
    ensures Look(InitAt(fs, c.entry, c.depth, AllPass), q)
         == if path < q then ExpectedAt(node, path, c.depth, fs.convert, q[|path|..])
            else if path == q then Some(c.entry) else None
  {
    WellFormedAt(fs.root, [], path);
    assert [] + path == path;
    var scan := InitAt(fs, c.entry, c.depth, AllPass);
    assert scan == InitTree(node, path, c.entry, c.depth, AllPass, fs.convert) && scan.entry == c.entry;
    if path < q {
      InitIsSnapshot(node, path, c.entry, c.depth, fs.convert, q[|path|..]);
    }
  }

  /** The typed path an event carries for `q`: a link is reported as a link. */
  function Reading(fs: Snapshot, q: Path): TypedPath {
    match NodeAt(fs.root, q)
    case None => TypedPath(Abs(q), false, Kind(false, false, false))
    case Some(node) => Listed(node, q)
  }

  lemma {:induction false} UpdatePartsEntry(c: Cached, parts: Path, tp: TypedPath, rescan: bool, fs: Snapshot)
    requires parts != []
    ensures UpdateParts(c, parts, tp, rescan, AllPass, fs).0.entry == c.entry
  {
  }

  lemma UpdateSameEntry(c: Cached, fs: Snapshot, q: Path, rescan: bool)
    requires c.entry.tp.path.Abs? && PathOf(c.entry) <= q
    ensures var c' := Update(c, Reading(fs, q), rescan, AllPass, fs).tree;
            c'.entry.tp.path == c.entry.tp.path && (PathOf(c.entry) < q ==> c'.entry == c.entry)
  {
    var parts := Relativize(PathOf(c.entry), q);
    if NodeAt(fs.root, q).None? {
      RemovePartsSame(c, parts);
    } else if PathOf(c.entry) < q {
      UpdatePartsEntry(c, parts, Reading(fs, q), rescan, fs);
    }
  }

  /** The entry that the directory has in the snapshot. */
  function OwnEntry(node: Node, path: Path, fs: Snapshot): Entry {
    Entry(Listed(node, path), fs.convert(path))
  }

  /** The event for the directory itself, unless it rescans it, gives it its entry. */
  predicate Renews(node: Node, path: Path, q: Path, rescan: bool) {
    q == path && !(rescan && node.Folder?)
  }

  /** What one delivery leaves. */
  ghost predicate Delivered(c: Cached, c': Cached, path: Path, node: Node, fs: Snapshot, q: Path, rescan: bool)
    requires path <= q
  {
    && Placed(c', path, node, fs) && c'.depth == c.depth
    && (c.entry.tp.present ==> c'.entry.tp.present)
    && c'.entry == (if Renews(node, path, q, rescan) then OwnEntry(node, path, fs) else c.entry)
    && forall rel | rel != [] :: Outcome(c, c', path, node, fs.convert, q[|path|..], rescan, rel)
  }

  /** One event for a path below the directory, which exists or is gone. */
  lemma DeliverInside(c: Cached, path: Path, node: Node, fs: Snapshot, q: Path, rescan: bool)
    requires Placed(c, path, node, fs) && path < q
    ensures Delivered(c, Update(c, Reading(fs, q), rescan, AllPass, fs).tree, path, node, fs, q, rescan)
  {
    var parts := q[|path|..];
    var c' := Update(c, Reading(fs, q), rescan, AllPass, fs).tree;
    assert path + parts == q;
    NodeAtSplit(fs.root, path, parts);
    UpdateSameEntry(c, fs, q, rescan);
    if NodeAt(node, parts).Some? {
      DeliverStep(c, path, node, fs, parts);
      UpdatePartsStruct(c, path, parts, Listed(NodeAt(node, parts).value, q), rescan, AllPass, fs);
    } else {
      RemovePartsStruct(c, path, parts);
    }
    forall rel | rel != []
      ensures Outcome(c, c', path, node, fs.convert, parts, rescan, rel)
    {
      if NodeAt(node, parts).Some? {
        DeliverOutcome(c, path, node, fs, parts, rescan, rel);
      } else {
        RemovedOutcome(c, path, node, fs, parts, rescan, rel);
      }
    }
  }

  /** One event for the directory itself: with a rescan it is scanned anew, and otherwise it gets its entry. */
  lemma DeliverItself(c: Cached, path: Path, node: Node, fs: Snapshot, rescan: bool)
    requires Placed(c, path, node, fs)
    ensures Delivered(c, Update(c, Reading(fs, path), rescan, AllPass, fs).tree, path, node, fs, path, rescan)
  {
    var c' := Update(c, Reading(fs, path), rescan, AllPass, fs).tree;
    if node.Folder? && rescan {
      InitAtStruct(fs, c.entry, c.depth, AllPass);
    } else {
      SameEntryPath(c, path, OwnEntry(node, path, fs));
    }
    forall rel | rel != []
      ensures Outcome(c, c', path, node, fs.convert, [], rescan, rel)
    {
      ItselfOutcome(c, path, node, fs, rescan, rel);
    }
  }

  lemma ItselfOutcome(c: Cached, path: Path, node: Node, fs: Snapshot, rescan: bool, rel: Path)
    requires Placed(c, path, node, fs) && rel != []
    ensures Outcome(c, Update(c, Reading(fs, path), rescan, AllPass, fs).tree, path, node, fs.convert, [], rescan, rel)
  {
    if node.Folder? && rescan {
      ScanIsRight(c, path, node, fs, path + rel);
      assert (path + rel)[|path|..] == rel;
      ScanNotStale(node, path, c.entry, c.depth, AllPass, fs.convert, rel);
    } else {
      LookEntryBelow(c, path, OwnEntry(node, path, fs), rel);
    }
  }

  lemma DeliverOne(c: Cached, path: Path, node: Node, fs: Snapshot, q: Path, rescan: bool)
    requires Placed(c, path, node, fs) && path <= q
    ensures Delivered(c, Update(c, Reading(fs, q), rescan, AllPass, fs).tree, path, node, fs, q, rescan)
  {
    if path == q {
      DeliverItself(c, path, node, fs, rescan);
    } else {
      DeliverInside(c, path, node, fs, q, rescan);
    }
  }

  ghost predicate AllRight(c: Cached, node: Node, path: Path, convert: Path -> Value) {
    forall rel | rel != [] :: Right(c, node, path, convert, rel)
  }

  /** A tree that is right stays right. */
  lemma StaysRight(c: Cached, path: Path, node: Node, fs: Snapshot, q: Path, rescan: bool)
    requires Placed(c, path, node, fs) && path <= q && AllRight(c, node, path, fs.convert)
    ensures AllRight(Update(c, Reading(fs, q), rescan, AllPass, fs).tree, node, path, fs.convert)
  {
    DeliverOne(c, path, node, fs, q, rescan);
    var c' := Update(c, Reading(fs, q), rescan, AllPass, fs).tree;
    forall rel | rel != []
      ensures Right(c', node, path, fs.convert, rel)
    {
      assert Outcome(c, c', path, node, fs.convert, q[|path|..], rescan, rel);
    }
  }
}
