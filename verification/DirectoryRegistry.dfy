/** The registered directories and the two questions asked of them: is a path accepted, and how many
    levels below it are. */
module DirectoryRegistries {
  import opened Wrappers
  import opened Entries
  import opened Snapshots
  import opened CacheTree
  import opened CacheInit

  /** Each registered path and the depth it is registered with. */
  type Registered = map<Path, int>

  /** How many levels `path` lies below `dir`. */
  function Levels(dir: Path, path: Path): (n: nat)
    requires dir <= path
    ensures n == |path| - |dir|
  {
    if dir == path then 0 else |Relativize(dir, path)|
  }

  /** What is left, at `path`, of the depth `dir` is registered with, in int arithmetic. */
  function Remaining(depth: int, dir: Path, path: Path): int
    requires dir <= path
  {
    Wrap(depth - Levels(dir, path))
  }

  /** `RegisteredDirectory.accept`. */
  predicate AcceptedBy(dir: Path, depth: int, path: Path) {
    dir <= path && (path == dir || Levels(dir, path) <= if depth == MAX_INT then depth else depth + 1)
  }

  predicate Accepts(reg: Registered, path: Path) {
    exists dir :: dir in reg && AcceptedBy(dir, reg[dir], path)
  }

  /** A path is also accepted on account of a registered path below it. */
  predicate AcceptsPrefix(reg: Registered, path: Path) {
    Accepts(reg, path) || exists dir :: dir in reg && path <= dir
  }

  /** `depth` is the largest remaining depth that a registered directory leaves at `path`. */
  ghost predicate IsDepthFor(reg: Registered, path: Path, depth: int) {
    && (forall dir <- reg :: dir <= path ==> Remaining(reg[dir], dir, path) <= depth)
    && (depth == MIN_INT || exists dir :: dir in reg && dir <= path && Remaining(reg[dir], dir, path) == depth)
  }

  ghost function DepthFor(reg: Registered, path: Path): (depth: int)
    ensures IsDepthFor(reg, path, depth) && IsInt(depth)
    decreases |reg|
  {
    if reg == map[] then MIN_INT
    else
      var dir :| dir in reg;
      var rest := DepthFor(reg - {dir}, path);
      assert forall d <- reg :: d != dir ==> d in reg - {dir} && (reg - {dir})[d] == reg[d];
      assert forall d <- reg - {dir} :: d in reg && (reg - {dir})[d] == reg[d];
      if dir <= path && Remaining(reg[dir], dir, path) > rest then Remaining(reg[dir], dir, path) else rest
  }

  /** Whatever order the registered directories are visited in, the answer is the same. */
  lemma DepthForUnique(reg: Registered, path: Path, depth: int)
    requires IsDepthFor(reg, path, depth) && depth >= MIN_INT
    ensures depth == DepthFor(reg, path)
  {
    var other := DepthFor(reg, path);
    if depth > MIN_INT {
      var dir :| dir in reg && dir <= path && Remaining(reg[dir], dir, path) == depth;
    }
    if other > MIN_INT {
      var dir :| dir in reg && dir <= path && Remaining(reg[dir], dir, path) == other;
    }
  }

  /** No difference the registry computes for `path` leaves the ints. */
  predicate NoOverflow(reg: Registered, path: Path) {
    forall dir <- reg :: dir <= path ==> IsInt(reg[dir]) && IsInt(reg[dir] - Levels(dir, path))
  }

  /** Depths of at least -1 never overflow, at whatever path. */
  lemma DepthsStayInts(reg: Registered, path: Path)
    requires |path| <= MAX_INT && forall dir <- reg :: -1 <= reg[dir] <= MAX_INT
    ensures NoOverflow(reg, path)
  {
  }

  /** What is exactly left of a registered depth at `path`; no int has to hold it. */
  function LevelsLeft(reg: Registered, dir: Path, path: Path): int
    requires dir in reg && dir <= path
  {
    reg[dir] - Levels(dir, path)
  }

  /** Some registered directory leaves at least -1 levels. */
  ghost predicate LeavesLevels(reg: Registered, path: Path) {
    exists dir :: dir in reg && dir <= path && LevelsLeft(reg, dir, path) >= -1
  }

  /** The difference computed for some registered directory overflows. */
  ghost predicate Overflows(reg: Registered, path: Path) {
    exists dir :: dir in reg && dir <= path && LevelsLeft(reg, dir, path) < MIN_INT
  }

  /** A path is accepted when some directory leaves levels for it, and otherwise only when it is
      registered itself. */
  lemma AcceptsMeans(reg: Registered, path: Path)
    requires |path| <= MAX_INT && forall dir <- reg :: IsInt(reg[dir])
    ensures Accepts(reg, path) <==> LeavesLevels(reg, path) || path in reg
  {
    if Accepts(reg, path) {
      var dir :| dir in reg && AcceptedBy(dir, reg[dir], path);
      assert dir != path ==> LevelsLeft(reg, dir, path) >= -1;
    }
    if LeavesLevels(reg, path) {
      var dir :| dir in reg && dir <= path && LevelsLeft(reg, dir, path) >= -1;
      assert AcceptedBy(dir, reg[dir], path);
    }
    if path in reg {
      assert AcceptedBy(path, reg[path], path);
    }
  }

  /** A difference that overflows wraps around to a large depth. */
  lemma WrapsUp(x: int)
    requires MIN_INT - MAX_INT <= x < MIN_INT
    ensures Wrap(x) >= 1
  {
    assert Wrap(x) == x + 0x1_0000_0000;
  }

  /** The difference computed for one directory. */
  lemma RemainingMeans(reg: Registered, dir: Path, path: Path)
    requires |path| <= MAX_INT && dir in reg && dir <= path && IsInt(reg[dir])
    ensures Remaining(reg[dir], dir, path) >= -1
       <==> LevelsLeft(reg, dir, path) >= -1 || LevelsLeft(reg, dir, path) < MIN_INT
  {
    if LevelsLeft(reg, dir, path) < MIN_INT { WrapsUp(LevelsLeft(reg, dir, path)); }
  }

  lemma DepthForMeans(reg: Registered, path: Path)
    requires |path| <= MAX_INT && forall dir <- reg :: IsInt(reg[dir])
    ensures DepthFor(reg, path) >= -1 <==> LeavesLevels(reg, path) || Overflows(reg, path)
  {
    forall dir | dir in reg && dir <= path
      ensures Remaining(reg[dir], dir, path) >= -1
         <==> LevelsLeft(reg, dir, path) >= -1 || LevelsLeft(reg, dir, path) < MIN_INT
    {
      RemainingMeans(reg, dir, path);
    }
  }

  /** For all depths: the two questions agree at a path if and only if some registered directory leaves at
      least -1 levels there, or the path is registered exactly when a difference overflows. */
  lemma QueriesAgree(reg: Registered, path: Path)
    requires |path| <= MAX_INT && forall dir <- reg :: IsInt(reg[dir])
    ensures (Accepts(reg, path) <==> DepthFor(reg, path) >= -1)
       <==> LeavesLevels(reg, path) || (path in reg <==> Overflows(reg, path))
  {
    AcceptsMeans(reg, path);
    DepthForMeans(reg, path);
  }

  /** Registered with depths of at least -1, a path is accepted exactly when `maxDepthFor` leaves it
      at least -1. */
  lemma QueriesAgreeOnDepths(reg: Registered, path: Path)
    requires |path| <= MAX_INT && forall dir <- reg :: -1 <= reg[dir] <= MAX_INT
    ensures Accepts(reg, path) <==> DepthFor(reg, path) >= -1
  {
    DepthsStayInts(reg, path);
    QueriesAgree(reg, path);
    if path in reg {
      assert LevelsLeft(reg, path, path) == reg[path] && LeavesLevels(reg, path);
    }
  }

  /** A depth below -1: its own path is accepted, with no level left. */
  lemma QueriesDisagree(path: Path)
    ensures Accepts(map[path := -2], path) && DepthFor(map[path := -2], path) == -2
  {
    var reg: Registered := map[path := -2];
    assert AcceptedBy(path, reg[path], path) && Remaining(reg[path], path, path) == -2;
    DepthForUnique(reg, path, -2);
  }

  /** A depth so low that the difference wraps around: a path that is not accepted is left the
      greatest depth. */
  lemma QueriesOverflow(path: Path, n: Name)
    ensures var reg: Registered := map[path := MIN_INT];
            !Accepts(reg, path + [n]) && DepthFor(reg, path + [n]) == MAX_INT
  {
    var reg: Registered := map[path := MIN_INT];
    assert Wrap(MIN_INT - 1) == MAX_INT;
    assert path <= path + [n] && Remaining(reg[path], path, path + [n]) == MAX_INT;
    DepthForUnique(reg, path + [n], MAX_INT);
  }

  /** Whenever a path is accepted as a prefix, so is every path above it. */
  lemma PrefixesClosed(reg: Registered, above: Path, path: Path)
    requires above <= path && AcceptsPrefix(reg, path)
    ensures AcceptsPrefix(reg, above)
  {
    if Accepts(reg, path) {
      var dir :| dir in reg && AcceptedBy(dir, reg[dir], path);
      if |dir| <= |above| {
        assert dir == path[..|dir|] == above[..|dir|];
        assert AcceptedBy(dir, reg[dir], above);
      } else {
        assert above == path[..|above|] == dir[..|above|];
      }
    } else {
      var dir :| dir in reg && path <= dir;
      assert above <= dir;
    }
  }

  /** The filter of a directory that a path watcher keeps. */
  function WatcherFilter(reg: Registered): TypedPath -> bool {
    (tp: TypedPath) => tp.kind.dir && !tp.kind.link && AcceptsPrefix(reg, tp.path.names)
  }

  lemma WatcherFilterClosed(reg: Registered, node: Node, path: Path)
    ensures AncestorClosed(node, path, WatcherFilter(reg))
  {
    forall rel, i | 0 < i <= |rel| && NodeAt(node, rel).Some?
                    && WatcherFilter(reg)(Listed(NodeAt(node, rel).value, path + rel))
      ensures NodeAt(node, rel[..i]).Some?
      ensures WatcherFilter(reg)(Listed(NodeAt(node, rel[..i]).value, path + rel[..i]))
    {
      AboveIsFolder(node, rel, i);
      assert path + rel[..i] <= path + rel;
      PrefixesClosed(reg, path + rel[..i], path + rel);
    }
  }

  /** Only directories lie above a directory. */
  lemma {:induction false} AboveIsFolder(node: Node, rel: Path, i: nat)
    requires i <= |rel| && NodeAt(node, rel).Some? && NodeAt(node, rel).value.Folder?
    ensures NodeAt(node, rel[..i]).Some? && NodeAt(node, rel[..i]).value.Folder?
    decreases i
  {
    if i > 0 {
      AboveIsFolder(node.children[rel[0]], rel[1..], i - 1);
      assert rel[..i][1..] == rel[1..][..i - 1];
    }
  }

  /** In every state of the registry, a watcher root of unlimited depth caches exactly the existing
      directories, not links, that `acceptPrefix` accepts. */
  lemma WatcherRootHolds(reg: Registered, node: Node, path: Path, entry: Entry, convert: Path -> Value, rel: Path)
    requires WellFormed(node, path) && entry.tp.path == Abs(path) && rel != []
    ensures At(InitTree(node, path, entry, MAX_INT, WatcherFilter(reg), convert), rel)
         == if NodeAt(node, rel).Some? && NodeAt(node, rel).value.Folder? && AcceptsPrefix(reg, path + rel)
            then Some(Entry(Listed(NodeAt(node, rel).value, path + rel), convert(path + rel))) else None
  {
    WatcherFilterClosed(reg, node, path);
    InitIsRestriction(node, path, entry, MAX_INT, WatcherFilter(reg), convert, rel);
    InitIsSnapshot(node, path, entry, MAX_INT, convert, rel);
  }

  /** Registering more never loses a path or a level. */
  lemma DepthForGrows(reg: Registered, more: Registered, path: Path)
    requires |path| <= MAX_INT && NoOverflow(reg, path) && NoOverflow(more, path)
    requires forall dir <- reg :: dir in more && reg[dir] <= more[dir]
    ensures DepthFor(reg, path) <= DepthFor(more, path)
  {
    if DepthFor(reg, path) > MIN_INT {
      var dir :| dir in reg && dir <= path && Remaining(reg[dir], dir, path) == DepthFor(reg, path);
      assert Remaining(more[dir], dir, path) >= Remaining(reg[dir], dir, path);
    }
  }

  /** `addDirectory`: a new path, or a greater depth. */
  predicate Adds(reg: Registered, path: Path, maxDepth: int) {
    path in reg ==> maxDepth > reg[path]
  }

  class DirectoryRegistry {
    var registered: Registered

    constructor ()
      ensures registered == map[]
    {
      registered := map[];
    }

    method AddDirectory(path: Path, maxDepth: int) returns (added: bool)
      modifies this
      ensures added <==> path !in old(registered) || old(registered)[path] < maxDepth
      ensures registered == if added then old(registered)[path := maxDepth] else old(registered)
      ensures path in registered && registered[path] >= maxDepth
    {
      if path !in registered || maxDepth > registered[path] {
        registered := registered[path := maxDepth];
        return true;
      } else {
        return false;
      }
    }

    method RemoveDirectory(path: Path)
      modifies this
      ensures registered == old(registered) - {path}
    {
      registered := registered - {path};
    }

    /** The registered directories are visited in some order. */
    method MaxDepthFor(path: Path) returns (maxDepth: int)
      ensures maxDepth == DepthFor(registered, path)
    {
      maxDepth := MIN_INT;
      var todo := registered.Keys;
      while todo != {}
        invariant todo <= registered.Keys && IsInt(maxDepth)
        invariant forall dir <- registered ::
                    dir !in todo && dir <= path ==> Remaining(registered[dir], dir, path) <= maxDepth
        invariant maxDepth == MIN_INT || exists dir :: dir in registered && dir <= path
                                                       && Remaining(registered[dir], dir, path) == maxDepth
        decreases todo
      {
        var dir :| dir in todo;
        todo := todo - {dir};
        if dir <= path {
          var possibleMaxDepth := Wrap(registered[dir] - Levels(dir, path));
          if possibleMaxDepth > maxDepth {
            maxDepth := possibleMaxDepth;
          }
        }
      }
      DepthForUnique(registered, path, maxDepth);
    }

    /** Stops at the first registered directory that accepts the path. */
    method AcceptImpl(path: Path, acceptPrefix: bool) returns (result: bool)
      ensures result <==> if acceptPrefix then AcceptsPrefix(registered, path) else Accepts(registered, path)
    {
      result := false;
      var todo := registered.Keys;
      while !result && todo != {}
        invariant todo <= registered.Keys
        invariant result ==> if acceptPrefix then AcceptsPrefix(registered, path) else Accepts(registered, path)
        invariant !result ==> forall dir <- registered :: dir !in todo ==>
                    !AcceptedBy(dir, registered[dir], path) && !(acceptPrefix && path <= dir)
        decreases todo
      {
        var dir :| dir in todo;
        todo := todo - {dir};
        if acceptPrefix && path <= dir {
          result := true;
        } else if dir <= path {
          result := AcceptedBy(dir, registered[dir], path);
        }
      }
    }

    method Accept(path: Path) returns (result: bool)
      ensures result <==> Accepts(registered, path)
    {
      result := AcceptImpl(path, false);
    }

    method AcceptPrefix(path: Path) returns (result: bool)
      ensures result <==> AcceptsPrefix(registered, path)
    {
      result := AcceptImpl(path, true);
    }
  }
}
