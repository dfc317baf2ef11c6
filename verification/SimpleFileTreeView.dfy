/** The direct listing of a directory tree, without following links. */
module SimpleFileTreeView {
  import opened Wrappers
  import opened Entries
  import opened Snapshots

  datatype ListResult = Listing(paths: seq<TypedPath>) | ListFailed(error: ListError)

  function Decrement(maxDepth: int): int {
    if maxDepth == MAX_INT then maxDepth else maxDepth - 1
  }

  /** How often a listing of the directory `node` at `dir` reports `t`. */
  function DirectCount(node: Node, dir: Path, maxDepth: int, accept: TypedPath -> bool, t: TypedPath): nat
    decreases node
  {
    if t.path.Abs? && dir < t.path.names && node.Folder? && t.path.names[|dir|] in node.children then
      ChildCount(node, dir, maxDepth, accept, t, t.path.names[|dir|])
    else 0
  }

  /** How often it reports `t` on account of the child `n`. */
  function ChildCount(node: Node, dir: Path, maxDepth: int, accept: TypedPath -> bool, t: TypedPath, n: Name): nat
    requires node.Folder? && n in node.children
    decreases node, 0
  {
    var child := node.children[n];
    One(t == Listed(child, dir + [n]) && accept(t))
    + if child.Folder? && maxDepth > 0 then DirectCount(child, dir + [n], Decrement(maxDepth), accept, t) else 0
  }

  /** Every directory the listing opens can be read. */
  ghost predicate Readable(node: Node, maxDepth: int) {
    && node.Folder? && node.readable
    && (maxDepth > 0 ==>
          forall n <- node.children :: node.children[n].Folder? ==> Readable(node.children[n], Decrement(maxDepth)))
  }

  lemma {:induction false} NotItself(node: Node, dir: Path, maxDepth: int, accept: TypedPath -> bool, t: TypedPath)
    requires t.path.Abs? && t.path.names == dir
    ensures DirectCount(node, dir, maxDepth, accept, t) == 0
  {
  }

  /** A path is reported exactly once when it exists below the directory, within the levels asked
      for, and passes the filter; and not at all otherwise. */
  lemma {:induction false} DirectCountMeans(node: Node, dir: Path, maxDepth: int, accept: TypedPath -> bool,
                                            t: TypedPath)
    requires 0 <= maxDepth <= MAX_INT
    ensures DirectCount(node, dir, maxDepth, accept, t)
         == One(&& t.path.Abs? && dir < t.path.names && (maxDepth == MAX_INT || |t.path.names| - |dir| <= maxDepth + 1)
                && NodeAt(node, t.path.names[|dir|..]).Some?
                && t == Listed(NodeAt(node, t.path.names[|dir|..]).value, t.path.names) && accept(t))
    decreases node
  {
    if t.path.Abs? && dir < t.path.names && node.Folder? && t.path.names[|dir|] in node.children {
      var q := t.path.names;
      var n, rel := q[|dir|], q[|dir|..];
      var child := node.children[n];
      assert rel[1..] == q[|dir + [n]|..];
      assert dir + [n] <= q;
      assert NodeAt(node, rel) == NodeAt(child, rel[1..]);
      if |rel| == 1 {
        assert q == dir + [n] && rel[1..] == [];
        assert NodeAt(node, rel) == Some(child);
        NotItself(child, dir + [n], Decrement(maxDepth), accept, t);
      } else if child.Folder? && maxDepth > 0 {
        DirectCountMeans(child, dir + [n], Decrement(maxDepth), accept, t);
      }
    }
  }

  /** How often the children in `done` make a listing report `t`. */
  function DoneCount(node: Node, dir: Path, maxDepth: int, accept: TypedPath -> bool, t: TypedPath, done: set<Name>)
    : nat
  {
    if && t.path.Abs? && dir < t.path.names && node.Folder?
       && t.path.names[|dir|] in node.children && t.path.names[|dir|] in done
    then ChildCount(node, dir, maxDepth, accept, t, t.path.names[|dir|])
    else 0
  }

  lemma DoneMore(node: Node, dir: Path, maxDepth: int, accept: TypedPath -> bool, t: TypedPath, done: set<Name>,
                 n: Name)
    requires node.Folder? && n in node.children && n !in done
    ensures DoneCount(node, dir, maxDepth, accept, t, done + {n})
         == DoneCount(node, dir, maxDepth, accept, t, done) + ChildCount(node, dir, maxDepth, accept, t, n)
  {
    if t.path.Abs? && dir < t.path.names && t.path.names[|dir|] == n {
    } else {
      assert t != Listed(node.children[n], dir + [n]);
      assert !(t.path.Abs? && dir + [n] < t.path.names);
    }
  }

  /** Of a listing that had added the children in `done`, `now` has those in `more` as well. */
  ghost predicate Counted(start: seq<TypedPath>, now: seq<TypedPath>, node: Node, dir: Path, maxDepth: int,
                          accept: TypedPath -> bool, done: set<Name>, more: set<Name>) {
    forall t :: multiset(now)[t] + DoneCount(node, dir, maxDepth, accept, t, done)
             == multiset(start)[t] + DoneCount(node, dir, maxDepth, accept, t, more)
  }

  lemma CountedMore(start: seq<TypedPath>, now: seq<TypedPath>, next: seq<TypedPath>, node: Node, dir: Path,
                    maxDepth: int, accept: TypedPath -> bool, done: set<Name>, more: set<Name>, n: Name)
    requires Counted(start, now, node, dir, maxDepth, accept, done, more)
    requires node.Folder? && n in node.children && n !in more
    requires forall t :: multiset(next)[t] == multiset(now)[t] + ChildCount(node, dir, maxDepth, accept, t, n)
    ensures Counted(start, next, node, dir, maxDepth, accept, done, more + {n})
  {
    forall t
      ensures multiset(next)[t] + DoneCount(node, dir, maxDepth, accept, t, done)
           == multiset(start)[t] + DoneCount(node, dir, maxDepth, accept, t, more + {n})
    {
      DoneMore(node, dir, maxDepth, accept, t, more, n);
    }
  }

  /** A child that is no directory is added once, if the filter accepts it. */
  lemma FileCounted(now: seq<TypedPath>, next: seq<TypedPath>, node: Node, dir: Path, maxDepth: int,
                    accept: TypedPath -> bool, n: Name)
    requires node.Folder? && n in node.children && !node.children[n].Folder?
    requires var file := Listed(node.children[n], dir + [n]); next == if accept(file) then now + [file] else now
    ensures forall t :: multiset(next)[t] == multiset(now)[t] + ChildCount(node, dir, maxDepth, accept, t, n)
  {
  }

  /** When every child is done, the listing is complete. */
  lemma CountedAll(start: seq<TypedPath>, now: seq<TypedPath>, node: Node, dir: Path, maxDepth: int,
                   accept: TypedPath -> bool, done: set<Name>)
    requires Counted(start, now, node, dir, maxDepth, accept, {}, done) && node.Folder? && done == node.children.Keys
    ensures forall t :: multiset(now)[t] == multiset(start)[t] + DirectCount(node, dir, maxDepth, accept, t)
  {
  }

  lemma CountedTwice(start: seq<TypedPath>, now: seq<TypedPath>, next: seq<TypedPath>, node: Node, dir: Path,
                     maxDepth: int, accept: TypedPath -> bool, done: set<Name>, more: set<Name>)
    requires Counted(start, now, node, dir, maxDepth, accept, {}, done)
    requires Counted(now, next, node, dir, maxDepth, accept, done, more)
    ensures Counted(start, next, node, dir, maxDepth, accept, {}, more)
  {
  }

  lemma ChildNode(fs: Snapshot, dir: Path, node: Node, n: Name)
    requires NodeAt(fs.root, dir) == Some(node) && node.Folder? && n in node.children
    ensures NodeAt(fs.root, dir + [n]) == Some(node.children[n])
  {
    NodeAtSplit(fs.root, dir, [n]);
    assert [n][1..] == [];
  }

  predicate Distinct(names: seq<Name>) {
    forall i, j | 0 <= i < j < |names| :: names[i] != names[j]
  }

  function NamesIn(names: seq<Name>): set<Name> {
    set n | n in names
  }

  lemma NamesInMore(names: seq<Name>, i: nat)
    requires i < |names| && Distinct(names)
    ensures names[i] !in NamesIn(names[..i]) && NamesIn(names[..i + 1]) == NamesIn(names[..i]) + {names[i]}
  {
    assert names[..i + 1] == names[..i] + [names[i]];
  }

  /** The names a directory lister finds, by kind, each once. */
  method ApplyLister(children: map<Name, Node>) returns (directories: seq<Name>, files: seq<Name>, symlinks: seq<Name>)
    ensures Distinct(directories) && Distinct(files) && Distinct(symlinks)
    ensures forall n :: n in directories <==> n in children && children[n].Folder?
    ensures forall n :: n in files <==> n in children && children[n].File?
    ensures forall n :: n in symlinks <==> n in children && children[n].Link?
  {
    directories, files, symlinks := [], [], [];
    var todo := children.Keys;
    while todo != {}
      invariant todo <= children.Keys
      invariant Distinct(directories) && Distinct(files) && Distinct(symlinks)
      invariant forall n :: n in directories <==> n in children && n !in todo && children[n].Folder?
      invariant forall n :: n in files <==> n in children && n !in todo && children[n].File?
      invariant forall n :: n in symlinks <==> n in children && n !in todo && children[n].Link?
      decreases todo
    {
      var n :| n in todo;
      todo := todo - {n};
      match children[n] {
        case Folder(_, _) => directories := directories + [n];
        case File => files := files + [n];
        case Link(_) => symlinks := symlinks + [n];
      }
    }
  }

  /** Every child is of one of the kinds. */
  lemma EveryName(children: map<Name, Node>, directories: seq<Name>, files: seq<Name>, symlinks: seq<Name>)
    requires forall n :: n in directories <==> n in children && children[n].Folder?
    requires forall n :: n in files <==> n in children && children[n].File?
    requires forall n :: n in symlinks <==> n in children && children[n].Link?
    ensures NamesIn(directories) + NamesIn(files) + NamesIn(symlinks) == children.Keys
  {
  }

  /** The state of one listing: it appends to `result` as it descends. */
  class Lister {
    var result: seq<TypedPath>
    var visited: set<Path>
    const accept: TypedPath -> bool

    constructor (accept: TypedPath -> bool)
      ensures this.accept == accept && result == [] && visited == {}
    {
      this.accept := accept;
      result, visited := [], {};
    }

    method FillResults(fs: Snapshot, dir: Path, maxDepth: int, ghost node: Node) returns (error: Option<ListError>)
      requires NodeAt(fs.root, dir) == Some(node) && maxDepth >= 0
      modifies this
      ensures error.None? <==> Readable(node, maxDepth)
      ensures maxDepth == 0 && error.Some? ==> ListDirectory(fs, dir) == Failed(error.value)
      ensures error.None? ==> forall t ::
                multiset(result)[t] == multiset(old(result))[t] + DirectCount(node, dir, maxDepth, accept, t)
      decreases node, 2
    {
      error := Impl(fs, dir, maxDepth, node);
      visited := {};
    }

    method Impl(fs: Snapshot, dir: Path, maxDepth: int, ghost node: Node) returns (error: Option<ListError>)
      requires NodeAt(fs.root, dir) == Some(node) && maxDepth >= 0
      modifies this
      ensures error.None? <==> Readable(node, maxDepth)
      ensures maxDepth == 0 && error.Some? ==> ListDirectory(fs, dir) == Failed(error.value)
      ensures error.None? ==> forall t ::
                multiset(result)[t] == multiset(old(result))[t] + DirectCount(node, dir, maxDepth, accept, t)
      decreases node, 1
    {
      var listing := ListDirectory(fs, dir);
      if listing.Failed? {
        return Some(listing.error);
      }
      var directories, files, symlinks := ApplyLister(listing.children);
      visited := visited + {dir};
      error := AppendDirectories(fs, dir, directories, maxDepth, node);
      if error.Some? {
        return;
      }
      ghost var start, all := old(result), NamesIn(directories);
      ghost var now := result;
      AppendAll(dir, files, FILE, maxDepth, node, all);
      CountedTwice(start, now, result, node, dir, maxDepth, accept, all, all + NamesIn(files));
      all, now := all + NamesIn(files), result;
      AppendAll(dir, symlinks, LINK, maxDepth, node, all);
      CountedTwice(start, now, result, node, dir, maxDepth, accept, all, all + NamesIn(symlinks));
      EveryName(node.children, directories, files, symlinks);
      CountedAll(start, result, node, dir, maxDepth, accept, all + NamesIn(symlinks));
    }

    /** Adds the subdirectories of one directory, and descends into them. */
    method AppendDirectories(fs: Snapshot, dir: Path, names: seq<Name>, maxDepth: int, ghost node: Node)
      returns (error: Option<ListError>)
      requires NodeAt(fs.root, dir) == Some(node) && maxDepth >= 0 && node.Folder? && Distinct(names)
      requires forall n <- names :: n in node.children && node.children[n].Folder?
      modifies this
      ensures error.None? <==>
              (maxDepth > 0 ==> forall n <- names :: Readable(node.children[n], Decrement(maxDepth)))
      ensures error.None? ==>
                Counted(old(result), result, node, dir, maxDepth, accept, {}, NamesIn(names))
      decreases node, 0
    {
      ghost var done := {};
      for i := 0 to |names|
        invariant done == NamesIn(names[..i])
        invariant Counted(old(result), result, node, dir, maxDepth, accept, {}, done)
        invariant maxDepth > 0 ==> forall n <- names[..i] :: Readable(node.children[n], Decrement(maxDepth))
      {
        var n := names[i];
        NamesInMore(names, i);
        ghost var before := result;
        error := AppendDirectory(fs, dir, n, maxDepth, node);
        if error.Some? {
          return;
        }
        CountedMore(old(result), before, result, node, dir, maxDepth, accept, {}, done, n);
        done := done + {n};
        assert names[..i + 1] == names[..i] + [n];
      }
      assert names[..|names|] == names;
      return None;
    }

    /** One subdirectory: it is added if the filter accepts it, and descended into in any case. */
    method AppendDirectory(fs: Snapshot, dir: Path, n: Name, maxDepth: int, ghost node: Node)
      returns (error: Option<ListError>)
      requires NodeAt(fs.root, dir) == Some(node) && maxDepth >= 0 && node.Folder?
      requires n in node.children && node.children[n].Folder?
      modifies this
      ensures error.None? <==> (maxDepth > 0 ==> Readable(node.children[n], Decrement(maxDepth)))
      ensures error.None? ==>
                forall t :: multiset(result)[t]
                         == multiset(old(result))[t] + ChildCount(node, dir, maxDepth, accept, t, n)
      decreases node.children[n], 3
    {
      var file := TypedPath(Abs(dir + [n]), true, DIRECTORY);
      if accept(file) {
        result := result + [file];
      }
      if maxDepth > 0 {
        ChildNode(fs, dir, node, n);
        error := FillResults(fs, dir + [n], Decrement(maxDepth), node.children[n]);
      } else {
        error := None;
      }
    }

    /** Adds the files, or the links, of one directory. */
    method AppendAll(dir: Path, names: seq<Name>, kind: Kind, ghost maxDepth: int, ghost node: Node,
                     ghost done: set<Name>)
      requires node.Folder? && Distinct(names)
      requires forall n <- names :: n in node.children && !node.children[n].Folder? && n !in done
      requires forall n <- names :: ListedKind(node.children[n]) == kind
      modifies this`result
      ensures Counted(old(result), result, node, dir, maxDepth, accept, done, done + NamesIn(names))
    {
      ghost var more := {};
      for i := 0 to |names|
        invariant more == NamesIn(names[..i])
        invariant Counted(old(result), result, node, dir, maxDepth, accept, done, done + more)
      {
        var n := names[i];
        NamesInMore(names, i);
        ghost var before := result;
        var file := TypedPath(Abs(dir + [n]), true, kind);
        if accept(file) {
          result := result + [file];
        }
        FileCounted(before, result, node, dir, maxDepth, accept, n);
        CountedMore(old(result), before, result, node, dir, maxDepth, accept, done, done + more, n);
        assert done + more + {n} == done + (more + {n});
        more := more + {n};
      }
      assert names[..|names|] == names;
    }
  }

  /** `list`: a negative depth reports the path itself. */
  method List(fs: Snapshot, path: Path, maxDepth: int, accept: TypedPath -> bool) returns (r: ListResult)
    ensures maxDepth < 0 ==> r == Listing(if accept(Stat(fs, path)) then [Stat(fs, path)] else [])
    ensures maxDepth >= 0 ==>
              (r.Listing? <==> NodeAt(fs.root, path).Some? && Readable(NodeAt(fs.root, path).value, maxDepth))
    ensures maxDepth >= 0 && r.Listing? ==>
              forall t :: multiset(r.paths)[t] == DirectCount(NodeAt(fs.root, path).value, path, maxDepth, accept, t)
    ensures maxDepth == 0 ==> (r.Listing? <==> ListDirectory(fs, path).Children?)
    ensures maxDepth == 0 && r.ListFailed? ==> ListDirectory(fs, path) == Failed(r.error)
  {
    if maxDepth >= 0 {
      var lister := new Lister(accept);
      if NodeAt(fs.root, path).None? {
        return ListFailed(NoSuchFile);
      }
      var error := lister.FillResults(fs, path, maxDepth, NodeAt(fs.root, path).value);
      r := if error.Some? then ListFailed(error.value) else Listing(lister.result);
    } else {
      var typedPath := Stat(fs, path);
      r := Listing(if accept(typedPath) then [typedPath] else []);
    }
  }
}
