/** `init` one child at a time. */
module CacheScan {
  import opened Entries
  import opened Snapshots
  import opened CacheTree
  import View = SimpleFileTreeView

  /** The part of a scan that concerns the children in `done`. */
  function Part(full: Cached, done: set<Name>): Cached {
    full.(files := map k | k in full.files && k.names != [] && k.names[0] in done :: full.files[k],
          subs := map n | n in full.subs && n in done :: full.subs[n])
  }

  function LeafOf(node: Node, path: Path, n: Name, convert: Path -> Value): Entry
    requires node.Folder? && n in node.children
  {
    Entry(TypedPath(Key(n), true, ListedKind(node.children[n])), convert(path + [n]))
  }

  lemma PartNone(node: Node, path: Path, entry: Entry, depth: int, accept: TypedPath -> bool, convert: Path -> Value)
    ensures Part(InitTree(node, path, entry, depth, accept, convert), {}) == Cached(entry, depth, map[], map[])
  {
  }

  lemma PartAll(node: Node, path: Path, entry: Entry, depth: int, accept: TypedPath -> bool, convert: Path -> Value,
                done: set<Name>)
    requires node.Folder? && forall n <- node.children :: accept(Listed(node.children[n], path + [n])) ==> n in done
    ensures var full := InitTree(node, path, entry, depth, accept, convert); Part(full, done) == full
  {
    var full := InitTree(node, path, entry, depth, accept, convert);
    assert Part(full, done).files == full.files;
    assert Part(full, done).subs == full.subs;
  }

  ghost predicate KeyedByName(full: Cached) {
    && (forall k <- full.files :: k.names != [] && k == Key(k.names[0]))
    && (forall n <- full.subs :: Key(n) !in full.files)
  }

  lemma PartSub(full: Cached, done: set<Name>, n: Name)
    requires KeyedByName(full) && n in full.subs
    ensures Part(full, done + {n}) == Part(full, done).(subs := Part(full, done).subs[n := full.subs[n]])
  {
    var part, more := Part(full, done), Part(full, done + {n});
    assert more.files == part.files by {
      assert forall k <- full.files :: k.names[0] == n ==> k == Key(n);
    }
    assert more.subs == part.subs[n := full.subs[n]];
  }

  lemma PartFile(full: Cached, done: set<Name>, n: Name)
    requires KeyedByName(full) && Key(n) in full.files
    ensures Part(full, done + {n}) == Part(full, done).(files := Part(full, done).files[Key(n) := full.files[Key(n)]])
  {
    var part, more := Part(full, done), Part(full, done + {n});
    assert Key(n).names[0] == n;
    assert more.files == part.files[Key(n) := full.files[Key(n)]];
    assert more.subs == part.subs;
  }

  lemma ScanChild(node: Node, path: Path, entry: Entry, depth: int, accept: TypedPath -> bool, convert: Path -> Value,
                  n: Name)
    requires depth >= 0 && node.Folder? && node.readable && n in node.children
    requires accept(Listed(node.children[n], path + [n]))
    ensures var full := InitTree(node, path, entry, depth, accept, convert);
            KeyedByName(full)
            && if node.children[n].Folder? && depth > 0
               then n in full.subs && full.subs[n] == BranchOf(node, path, n, depth, accept, convert)
               else Key(n) in full.files && full.files[Key(n)] == LeafOf(node, path, n, convert)
  {
    var full := InitTree(node, path, entry, depth, accept, convert);
    assert Key(n).names[0] == n && path + Key(n).names == path + [n];
    FileKeys(node, path, entry, depth, accept, convert);
    forall m | m in full.subs
      ensures Key(m) !in full.files
    {
      assert Key(m).names[0] == m;
    }
  }

  /** Adding one child: a directory above the depth limit is scanned, anything else is a file. */
  lemma PartMore(node: Node, path: Path, entry: Entry, depth: int, accept: TypedPath -> bool, convert: Path -> Value,
                 done: set<Name>, n: Name)
    requires depth >= 0 && node.Folder? && node.readable && n in node.children
    requires accept(Listed(node.children[n], path + [n]))
    ensures var full := InitTree(node, path, entry, depth, accept, convert);
            var part := Part(full, done);
            Part(full, done + {n})
            == if node.children[n].Folder? && depth > 0
               then part.(subs := part.subs[n := BranchOf(node, path, n, depth, accept, convert)])
               else part.(files := part.files[Key(n) := LeafOf(node, path, n, convert)])
  {
    var full := InitTree(node, path, entry, depth, accept, convert);
    ScanChild(node, path, entry, depth, accept, convert, n);
    if node.children[n].Folder? && depth > 0 {
      PartSub(full, done, n);
    } else {
      PartFile(full, done, n);
    }
  }

  lemma FileKeys(node: Node, path: Path, entry: Entry, depth: int, accept: TypedPath -> bool, convert: Path -> Value)
    ensures forall k <- InitTree(node, path, entry, depth, accept, convert).files ::
              k.names != [] && k == Key(k.names[0])
  {
  }

  /** A typed path that a listing of one level holds. */
  predicate ListedChild(node: Node, path: Path, accept: TypedPath -> bool, t: TypedPath) {
    && node.Folder? && t.path.Abs? && path < t.path.names && t.path.names[|path|] in node.children && accept(t)
    && t == Listed(node.children[t.path.names[|path|]], path + [t.path.names[|path|]])
  }

  /** The names under which the listed paths are kept. */
  ghost function NamesBelow(path: Path, paths: seq<TypedPath>): set<Name> {
    set t | t in paths && |path| < |t.path.names| :: t.path.names[|path|]
  }

  lemma NamesMore(node: Node, path: Path, accept: TypedPath -> bool, paths: seq<TypedPath>, i: nat)
    requires i < |paths| && forall t :: t in paths <==> ListedChild(node, path, accept, t)
    ensures ListedChild(node, path, accept, paths[i])
    ensures NamesBelow(path, paths[..i + 1]) == NamesBelow(path, paths[..i]) + {paths[i].path.names[|path|]}
  {
    assert paths[i] in paths;
    assert paths[..i + 1] == paths[..i] + [paths[i]];
  }

  lemma AllScanned(node: Node, path: Path, entry: Entry, depth: int, accept: TypedPath -> bool, convert: Path -> Value,
                   paths: seq<TypedPath>)
    requires node.Folder? && forall t :: t in paths <==> ListedChild(node, path, accept, t)
    ensures var full := InitTree(node, path, entry, depth, accept, convert);
            Part(full, NamesBelow(path, paths[..|paths|])) == full
  {
    assert paths[..|paths|] == paths;
    forall n | n in node.children && accept(Listed(node.children[n], path + [n]))
      ensures n in NamesBelow(path, paths)
    {
      assert ListedChild(node, path, accept, Listed(node.children[n], path + [n]));
    }
    PartAll(node, path, entry, depth, accept, convert, NamesBelow(path, paths));
  }

  lemma CountsChild(node: Node, path: Path, accept: TypedPath -> bool, t: TypedPath)
    requires node.Folder?
    ensures View.DirectCount(node, path, 0, accept, t) > 0 <==> ListedChild(node, path, accept, t)
  {
    if t.path.Abs? && path < t.path.names && t.path.names[|path|] in node.children {
      assert View.DirectCount(node, path, 0, accept, t)
          == View.ChildCount(node, path, 0, accept, t, t.path.names[|path|]);
    }
  }

  /** What a listing of one level holds: each accepted child once. */
  lemma OneLevel(node: Node, path: Path, accept: TypedPath -> bool, paths: seq<TypedPath>)
    requires node.Folder?
    requires forall t :: multiset(paths)[t] == View.DirectCount(node, path, 0, accept, t)
    ensures forall t :: t in paths <==> ListedChild(node, path, accept, t)
    ensures forall i, j | 0 <= i < j < |paths| :: paths[i] != paths[j]
  {
    forall t
      ensures t in paths <==> ListedChild(node, path, accept, t)
    {
      assert t in paths <==> multiset(paths)[t] > 0;
      CountsChild(node, path, accept, t);
    }
    forall i, j | 0 <= i < j < |paths|
      ensures paths[i] != paths[j]
    {
      if paths[i] == paths[j] {
        View.DirectCountMeans(node, path, 0, accept, paths[i]);
        CountedTwice(paths, i, j);
      }
    }
  }

  lemma CountedTwice<T>(s: seq<T>, i: nat, j: nat)
    requires i < j < |s| && s[i] == s[j]
    ensures multiset(s)[s[i]] >= 2
  {
    assert s == s[..j] + [s[j]] + s[j + 1..];
    assert s[i] == s[..j][i];
  }
}
