/** A filter that accepts all a directory caches makes no difference to it. */
module CacheFilters {
  import opened Entries
  import opened Snapshots
  import opened CacheTree
  import opened CacheInvariants
  import opened CacheRuns

  /** The filter accepts every path within the depth limit of a directory. */
  ghost predicate AcceptsWithin(accept: TypedPath -> bool, path: Path, depth: int) {
    forall tp: TypedPath ::
      tp.path.Abs? && |tp.path.names| <= MAX_INT && path <= tp.path.names && Within(depth, |tp.path.names| - |path|)
      ==> accept(tp)
  }

  lemma AcceptsChild(accept: TypedPath -> bool, path: Path, n: Name, depth: int)
    requires AcceptsWithin(accept, path, depth) && depth <= MAX_INT
    ensures depth >= 0 ==> AcceptsWithin(accept, path + [n], ChildDepth(depth))
  {
    forall tp: TypedPath | depth >= 0 && tp.path.Abs? && |tp.path.names| <= MAX_INT && path + [n] <= tp.path.names
                           && Within(ChildDepth(depth), |tp.path.names| - |path + [n]|)
      ensures accept(tp)
    {
      assert path <= tp.path.names;
    }
  }

  lemma {:induction false} InitTreeSame(node: Node, path: Path, entry: Entry, depth: int, accept: TypedPath -> bool,
                                        convert: Path -> Value)
    requires AcceptsWithin(accept, path, depth) && depth <= MAX_INT && WellFormed(node, path)
    ensures InitTree(node, path, entry, depth, accept, convert) == InitTree(node, path, entry, depth, AllPass, convert)
    decreases node
  {
    if depth >= 0 && node.Folder? && node.readable {
      forall n | n in node.children
        ensures accept(Listed(node.children[n], path + [n]))
        ensures depth > 0 ==> BranchOf(node, path, n, depth, accept, convert)
                              == BranchOf(node, path, n, depth, AllPass, convert)
      {
        assert WellFormed(node.children[n], path + [n]) && |path + [n]| - |path| == 1;
        if depth > 0 {
          AcceptsChild(accept, path, n, depth);
          InitTreeSame(node.children[n], path + [n], Entry(Listed(node.children[n], path + [n]), convert(path + [n])),
                       SubdirectoryDepth(depth), accept, convert);
        }
      }
      SameChildren(node, path, entry, depth, accept, convert);
    }
  }

  lemma {:induction false} SameChildren(node: Node, path: Path, entry: Entry, depth: int, accept: TypedPath -> bool,
                                        convert: Path -> Value)
    requires node.Folder? && node.readable && depth >= 0
    requires forall n <- node.children :: accept(Listed(node.children[n], path + [n]))
    requires depth > 0 ==> forall n <- node.children :: BranchOf(node, path, n, depth, accept, convert)
                                                     == BranchOf(node, path, n, depth, AllPass, convert)
    ensures InitTree(node, path, entry, depth, accept, convert) == InitTree(node, path, entry, depth, AllPass, convert)
  {
    var c := InitTree(node, path, entry, depth, accept, convert);
    var all := InitTree(node, path, entry, depth, AllPass, convert);
    SameFiles(node, path, entry, depth, accept, convert);
    assert c.subs.Keys == all.subs.Keys;
    forall n | n in c.subs
      ensures c.subs[n] == all.subs[n]
    {
      assert c.subs[n] == BranchOf(node, path, n, depth, accept, convert);
      assert all.subs[n] == BranchOf(node, path, n, depth, AllPass, convert);
    }
    assert c.subs == all.subs;
  }

  lemma SameFiles(node: Node, path: Path, entry: Entry, depth: int, accept: TypedPath -> bool, convert: Path -> Value)
    requires node.Folder? && node.readable && depth >= 0
    requires forall n <- node.children :: accept(Listed(node.children[n], path + [n]))
    ensures InitTree(node, path, entry, depth, accept, convert).files
         == InitTree(node, path, entry, depth, AllPass, convert).files
  {
  }

  lemma InitAtSame(fs: Snapshot, entry: Entry, depth: int, accept: TypedPath -> bool)
    requires AcceptsWithin(accept, PathOf(entry), depth) && depth <= MAX_INT && WellFormed(fs.root, [])
    ensures InitAt(fs, entry, depth, accept) == InitAt(fs, entry, depth, AllPass)
  {
    if NodeAt(fs.root, PathOf(entry)).Some? {
      WellFormedAt(fs.root, [], PathOf(entry));
      assert [] + PathOf(entry) == PathOf(entry);
      InitTreeSame(NodeAt(fs.root, PathOf(entry)).value, PathOf(entry), entry, depth, accept, fs.convert);
    }
  }

  lemma AddDirectorySame(c: Cached, path: Path, p: Name, tp: TypedPath, accept: TypedPath -> bool, fs: Snapshot)
    requires AcceptsWithin(accept, path, c.depth) && 0 < c.depth <= MAX_INT && tp.path == Abs(path + [p])
    requires WellFormed(fs.root, [])
    ensures AddDirectory(c, p, tp, accept, fs) == AddDirectory(c, p, tp, AllPass, fs)
  {
    AcceptsChild(accept, path, p, c.depth);
    InitAtSame(fs, Entry(tp, fs.convert(tp.path.names)), SubdirectoryDepth(c.depth), accept);
  }

  lemma {:induction false} UpdatePartsSame(c: Cached, path: Path, parts: Path, tp: TypedPath, rescan: bool,
                                           accept: TypedPath -> bool, fs: Snapshot)
    requires Struct(c, path) && AcceptsWithin(accept, path, c.depth)
    requires parts != [] && tp.path == Abs(path + parts) && WellFormed(fs.root, [])
    ensures UpdateParts(c, parts, tp, rescan, accept, fs) == UpdateParts(c, parts, tp, rescan, AllPass, fs)
    decreases |parts|
  {
    var p := parts[0];
    if c.depth >= 0 && p != NoName {
      if |parts| == 1 {
        assert parts == [p];
        if c.depth > 0 { AddDirectorySame(c, path, p, tp, accept, fs); }
      } else if p in c.subs {
        assert SubOk(c, p) && path + parts == path + [p] + parts[1..];
        AcceptsChild(accept, path, p, c.depth);
        UpdatePartsSame(c.subs[p], path + [p], parts[1..], tp, rescan, accept, fs);
      } else if c.depth > 0 {
        AddDirectorySame(c, path, p, Stat(fs, path + [p]), accept, fs);
      }
    }
  }

  /** An update within the depth limit is the update without a filter. */
  lemma UpdateSame(c: Cached, path: Path, tp: TypedPath, rescan: bool, accept: TypedPath -> bool, fs: Snapshot)
    requires Struct(c, path) && AcceptsWithin(accept, path, c.depth) && accept(tp)
    requires ValidCall(path, tp, fs)
    ensures Update(c, tp, rescan, accept, fs) == Update(c, tp, rescan, AllPass, fs)
  {
    if tp.present {
      if path == tp.path.names {
        InitAtSame(fs, c.entry, c.depth, accept);
      } else {
        assert path + Relativize(path, tp.path.names) == tp.path.names;
        UpdatePartsSame(c, path, Relativize(path, tp.path.names), tp, rescan, accept, fs);
      }
    }
  }
}
