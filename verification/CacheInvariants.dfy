/** The invariants of a cached tree: `Struct` holds in every reachable state, `Clean` as long as
    no name is stored both as a file and as a directory. */
module CacheInvariants {
  import opened Entries
  import opened Snapshots
  import opened CacheTree

  /** The depth of a child: its parent's, less one and saturating, or -1 at the depth limit. */
  function ChildDepth(depth: int): int {
    if depth > 0 then SubdirectoryDepth(depth) else -1
  }

  /** A key of `files` resolves to the path of the entry it holds, and above the depth limit no
      directory is kept as a file. */
  ghost predicate FileOk(c: Cached, path: Path, k: JPath)
    requires k in c.files
  {
    && (k.Rel? ==> |k.names| == 1 && Proper(k.names) && c.files[k].tp.present)
    && ResolvePath(path, c.files[k].tp.path) == ResolvePath(path, k)
    && (exists n :: ResolvePath(path, k) == path + [n])
    && |path| < MAX_INT
    && (c.depth > 0 ==> !IsDirectory(c.files[k].tp))
  }

  ghost predicate Struct(c: Cached, path: Path) {
    && c.entry.tp.path == Abs(path)
    && |path| <= MAX_INT
    && c.depth <= MAX_INT
    && (c.depth < 0 ==> c.files == map[] && c.subs == map[])
    && (forall k <- c.files :: FileOk(c, path, k))
    && (forall n <- c.subs :: SubOk(c, n) && Struct(c.subs[n], path + [n]))
  }

  ghost predicate SubOk(c: Cached, n: Name)
    requires n in c.subs
  {
    && n != NoName
    && c.subs[n].depth == ChildDepth(c.depth)
    && c.subs[n].entry.tp.present
    && IsDirectory(c.subs[n].entry.tp)
  }

  /** No name is both a file and a directory, and no file is kept under an absolute path. */
  ghost predicate Clean(c: Cached) {
    && c.entry.tp.present
    && (forall k <- c.files :: k.Rel?)
    && (forall n <- c.subs :: Key(n) !in c.files && Clean(c.subs[n]))
  }

  // ----- init

  lemma {:induction false} InitTreeStruct(node: Node, path: Path, entry: Entry, depth: int,
                                          accept: TypedPath -> bool, convert: Path -> Value)
    requires WellFormed(node, path)
    requires entry.tp.path == Abs(path) && depth <= MAX_INT
    ensures Struct(InitTree(node, path, entry, depth, accept, convert), path)
    ensures entry.tp.present ==> Clean(InitTree(node, path, entry, depth, accept, convert))
    decreases node
  {
    var c := InitTree(node, path, entry, depth, accept, convert);
    if depth >= 0 && node.Folder? && node.readable {
      forall n | n in c.subs
        ensures SubOk(c, n) && Struct(c.subs[n], path + [n]) && Key(n) !in c.files && Clean(c.subs[n])
      {
        var sub := Entry(Listed(node.children[n], path + [n]), convert(path + [n]));
        assert c.subs[n] == InitTree(node.children[n], path + [n], sub, SubdirectoryDepth(depth), accept, convert);
        InitTreeStruct(node.children[n], path + [n], sub, SubdirectoryDepth(depth), accept, convert);
      }
      InitTreeFiles(node, path, entry, depth, accept, convert);
    }
  }

  lemma {:induction false} InitTreeFiles(node: Node, path: Path, entry: Entry, depth: int,
                                         accept: TypedPath -> bool, convert: Path -> Value)
    requires WellFormed(node, path) && node.Folder? && node.readable && depth >= 0
    ensures var c := InitTree(node, path, entry, depth, accept, convert);
            forall k <- c.files :: FileOk(c, path, k) && k.Rel?
  {
    var c := InitTree(node, path, entry, depth, accept, convert);
    forall k | k in c.files
      ensures FileOk(c, path, k) && k.Rel?
    {
      assert k == Key(k.names[0]);
      assert WellFormed(node.children[k.names[0]], path + [k.names[0]]);
    }
  }

  lemma InitAtStruct(fs: Snapshot, entry: Entry, depth: int, accept: TypedPath -> bool)
    requires WellFormed(fs.root, [])
    requires entry.tp.path.Abs? && |PathOf(entry)| <= MAX_INT && depth <= MAX_INT
    ensures Struct(InitAt(fs, entry, depth, accept), PathOf(entry))
    ensures entry.tp.present ==> Clean(InitAt(fs, entry, depth, accept))
  {
    if NodeAt(fs.root, PathOf(entry)).Some? {
      WellFormedAt(fs.root, [], PathOf(entry));
      assert [] + PathOf(entry) == PathOf(entry);
      InitTreeStruct(NodeAt(fs.root, PathOf(entry)).value, PathOf(entry), entry, depth, accept, fs.convert);
    }
  }

  // ----- remove

  lemma {:induction false} RemovePartsStruct(c: Cached, path: Path, parts: Path)
    requires Struct(c, path) && parts != []
    ensures Struct(RemoveParts(c, parts).0, path)
    ensures RemoveParts(c, parts).0.entry == c.entry && RemoveParts(c, parts).0.depth == c.depth
    ensures Clean(c) ==> Clean(RemoveParts(c, parts).0)
    decreases |parts|
  {
    var c' := RemoveParts(c, parts).0;
    if |parts| > 1 && parts[0] in c.subs {
      RemovePartsStruct(c.subs[parts[0]], path + [parts[0]], parts[1..]);
      forall n | n in c'.subs
        ensures SubOk(c', n) && Struct(c'.subs[n], path + [n])
      {
        assert SubOk(c, n);
      }
    } else {
      forall n | n in c'.subs
        ensures SubOk(c', n) && Struct(c'.subs[n], path + [n])
      {
        assert SubOk(c, n);
      }
    }
    forall k | k in c'.files
      ensures FileOk(c', path, k)
    {
      assert FileOk(c, path, k);
    }
  }

  // ----- update

  /** The guard of the branches that leave the slots apart: `addDirectory` is given a directory
      whose name is not kept as a file (or one that is gone), and a path that is no directory is
      not cached as one. */
  predicate KeepsSlotsApart(c: Cached, parts: Path, tp: TypedPath, rescan: bool, fs: Snapshot)
    requires parts != []
    decreases |parts|
  {
    var p := parts[0];
    if c.depth < 0 || p == NoName then true
    else if |parts| == 1 then
      if !IsDirectory(tp) then p !in c.subs
      else c.depth > 0 && (p !in c.subs || rescan) ==> AddsCleanly(c, p, tp, fs)
    else if p in c.subs then KeepsSlotsApart(c.subs[p], parts[1..], tp, rescan, fs)
    else c.depth > 0 ==> AddsCleanly(c, p, Stat(fs, PathOf(c.entry) + [p]), fs)
  }

  predicate AddsCleanly(c: Cached, p: Name, tp: TypedPath, fs: Snapshot) {
    IsDirectory(tp) && (Key(p) in c.files ==> ListDirectory(fs, tp.path.names) == Failed(NoSuchFile))
  }

  /** What every caller of `update` supplies: an existing absolute path below the directory. */
  ghost predicate ValidUpdate(path: Path, parts: Path, tp: TypedPath, fs: Snapshot) {
    && parts != [] && Proper(parts)
    && tp.path == Abs(path + parts) && tp.present
    && |path + parts| <= MAX_INT
    && WellFormed(fs.root, [])
  }

  lemma ValidUpdateBelow(path: Path, parts: Path, tp: TypedPath, fs: Snapshot)
    requires ValidUpdate(path, parts, tp, fs) && |parts| > 1
    ensures ValidUpdate(path + [parts[0]], parts[1..], tp, fs)
  {
    assert path + parts == path + [parts[0]] + parts[1..];
  }

  lemma AddDirectoryStruct(c: Cached, path: Path, p: Name, tp: TypedPath, accept: TypedPath -> bool, fs: Snapshot)
    requires Struct(c, path) && c.depth > 0 && p != NoName
    requires tp.path == Abs(path + [p]) && |path + [p]| <= MAX_INT && (IsDirectory(tp) ==> tp.present)
    requires WellFormed(fs.root, [])
    ensures Struct(AddDirectory(c, p, tp, accept, fs).0, path)
    ensures Clean(c) ==> (Clean(AddDirectory(c, p, tp, accept, fs).0) <==> AddsCleanly(c, p, tp, fs))
  {
    var c' := AddDirectory(c, p, tp, accept, fs).0;
    var entry := Entry(tp, fs.convert(tp.path.names));
    InitAtStruct(fs, entry, SubdirectoryDepth(c.depth), accept);
    forall k | k in c'.files
      ensures FileOk(c', path, k)
    {
      if k in c.files { assert FileOk(c, path, k); }
      assert ResolvePath(path, tp.path) == path + [p];
    }
    forall n | n in c'.subs
      ensures SubOk(c', n) && Struct(c'.subs[n], path + [n])
    {
      if n != p { assert SubOk(c, n); }
    }
    if Clean(c) { AddDirectoryClean(c, path, p, tp, accept, fs); }
  }

  lemma AddDirectoryClean(c: Cached, path: Path, p: Name, tp: TypedPath, accept: TypedPath -> bool, fs: Snapshot)
    requires Clean(c) && tp.path == Abs(path + [p]) && (IsDirectory(tp) ==> tp.present)
    requires c.depth <= MAX_INT && |path + [p]| <= MAX_INT && WellFormed(fs.root, [])
    ensures Clean(AddDirectory(c, p, tp, accept, fs).0) <==> AddsCleanly(c, p, tp, fs)
  {
    var c' := AddDirectory(c, p, tp, accept, fs).0;
    var entry := Entry(tp, fs.convert(tp.path.names));
    if !IsDirectory(tp) {
      assert tp.path in c'.files;
    } else if ListDirectory(fs, tp.path.names) != Failed(NoSuchFile) {
      InitAtStruct(fs, entry, SubdirectoryDepth(c.depth), accept);
      assert c'.subs[p] == InitAt(fs, entry, SubdirectoryDepth(c.depth), accept);
      assert p in c'.subs && (Key(p) in c'.files <==> Key(p) in c.files);
    }
  }

  lemma LeafTreeStruct(c: Cached, path: Path, p: Name, entry: Entry, rescan: bool)
    requires Struct(c, path) && c.depth >= 0 && p != NoName
    requires entry.tp.path == Abs(path + [p]) && entry.tp.present
    requires !IsDirectory(entry.tp) || c.depth == 0
    requires |path + [p]| <= MAX_INT
    ensures Struct(LeafTree(c, p, entry, rescan), path)
  {
    var c' := LeafTree(c, p, entry, rescan);
    forall k | k in c'.files
      ensures FileOk(c', path, k)
    {
      if k == Key(p) {
        assert ResolvePath(path, k) == path + [p];
      } else {
        assert FileOk(c, path, k);
      }
    }
    forall n | n in c'.subs
      ensures SubOk(c', n) && Struct(c'.subs[n], path + [n])
    {
      if n in c.subs {
        assert SubOk(c, n);
        if n == p { SameEntryPath(c.subs[p], path + [p], entry); }
      }
    }
  }

  lemma LeafTreeClean(c: Cached, path: Path, p: Name, entry: Entry, rescan: bool)
    requires Struct(c, path) && Clean(c) && entry.tp.path == Abs(path + [p]) && entry.tp.present
    ensures Clean(LeafTree(c, p, entry, rescan)) <==> (IsDirectory(entry.tp) || p !in c.subs)
  {
    var c' := LeafTree(c, p, entry, rescan);
    if IsDirectory(entry.tp) {
      forall n | n in c'.subs
        ensures Key(n) !in c'.files && Clean(c'.subs[n])
      {
        if n in c.subs { SameEntryPath(c.subs[n], path + [n], if n == p then entry else c.subs[n].entry); }
      }
    }
  }

  /** Nothing below a directory depends on its own entry but the entry's path. */
  lemma SameEntryPath(c: Cached, path: Path, entry: Entry)
    requires Struct(c, path) && entry.tp.path == Abs(path)
    ensures Struct(c.(entry := entry), path)
    ensures Clean(c) && entry.tp.present ==> Clean(c.(entry := entry))
  {
    var c' := c.(entry := entry);
    forall k | k in c'.files
      ensures FileOk(c', path, k)
    {
      assert FileOk(c, path, k);
    }
    forall n | n in c'.subs
      ensures SubOk(c', n) && Struct(c'.subs[n], path + [n])
    {
      assert SubOk(c, n);
    }
  }

  lemma UpdateLastStruct(c: Cached, path: Path, p: Name, tp: TypedPath, rescan: bool, accept: TypedPath -> bool,
                         fs: Snapshot)
    requires Struct(c, path) && ValidUpdate(path, [p], tp, fs) && c.depth >= 0
    ensures Struct(UpdateLast(c, p, tp, rescan, accept, fs).0, path)
    ensures Clean(c) ==>
              (Clean(UpdateLast(c, p, tp, rescan, accept, fs).0) <==> KeepsSlotsApart(c, [p], tp, rescan, fs))
  {
    assert p != NoName by { assert [p][0] == p; }
    if !IsDirectory(tp) || c.depth <= 0 {
      LeafTreeStruct(c, path, p, LeafEntry(c, p, tp, fs), rescan);
      if Clean(c) { LeafTreeClean(c, path, p, LeafEntry(c, p, tp, fs), rescan); }
    } else if p !in c.subs || rescan {
      AddDirectoryStruct(c, path, p, tp, accept, fs);
    } else {
      var c' := UpdateLast(c, p, tp, rescan, accept, fs).0;
      assert SubOk(c, p);
      SameEntryPath(c.subs[p], path + [p], c'.subs[p].entry);
      ReplaceSub(c, path, p, c'.subs[p]);
    }
  }

  /** Replacing one child by another of the same depth keeps the invariants. */
  lemma ReplaceSub(c: Cached, path: Path, p: Name, sub: Cached)
    requires Struct(c, path) && p in c.subs
    requires Struct(sub, path + [p]) && sub.depth == c.subs[p].depth
    requires sub.entry.tp.present && IsDirectory(sub.entry.tp)
    ensures Struct(c.(subs := c.subs[p := sub]), path)
    ensures Clean(c) ==> (Clean(c.(subs := c.subs[p := sub])) <==> Clean(sub))
  {
    var c' := c.(subs := c.subs[p := sub]);
    forall k | k in c'.files
      ensures FileOk(c', path, k)
    {
      assert FileOk(c, path, k);
    }
    forall n | n in c'.subs
      ensures SubOk(c', n) && Struct(c'.subs[n], path + [n])
    {
      assert SubOk(c, n);
    }
  }

  /** Every update keeps the structure, and it keeps the slots apart exactly when its guard holds. */
  lemma {:induction false} UpdatePartsStruct(c: Cached, path: Path, parts: Path, tp: TypedPath, rescan: bool,
                                             accept: TypedPath -> bool, fs: Snapshot)
    requires Struct(c, path) && ValidUpdate(path, parts, tp, fs)
    ensures var c' := UpdateParts(c, parts, tp, rescan, accept, fs).0;
            && Struct(c', path) && c'.entry == c.entry && c'.depth == c.depth
            && (Clean(c) ==> (Clean(c') <==> KeepsSlotsApart(c, parts, tp, rescan, fs)))
    decreases |parts|
  {
    var p := parts[0];
    if c.depth >= 0 && p != NoName {
      if |parts| == 1 {
        assert parts == [p];
        UpdateLastStruct(c, path, p, tp, rescan, accept, fs);
      } else if p in c.subs {
        assert SubOk(c, p);
        ValidUpdateBelow(path, parts, tp, fs);
        UpdatePartsStruct(c.subs[p], path + [p], parts[1..], tp, rescan, accept, fs);
        ReplaceSub(c, path, p, UpdateParts(c.subs[p], parts[1..], tp, rescan, accept, fs).0);
      } else if c.depth > 0 {
        AddDirectoryStruct(c, path, p, Stat(fs, path + [p]), accept, fs);
      }
    }
  }
}
