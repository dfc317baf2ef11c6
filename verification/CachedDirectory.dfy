/** The cached directory as objects that are updated in place. Every node knows the value it stands
    for; a tree is a set of nodes whose links agree with those values. */
module CachedDirectories {
  import opened Wrappers
  import opened Entries
  import opened Snapshots
  import opened CacheTree
  import T = CacheTree
  import opened CacheInvariants
  import opened CacheListing
  import opened CacheInit
  import opened CacheUpdates
  import opened CachePut
  import opened CacheRefinesListing
  import opened CacheScan
  import opened CacheRuns
  import opened Replays
  import opened FileTreeViews
  import opened MapOps
  import View = SimpleFileTreeView

  /** The fields of `d` are those of the value `c`, and its children are nodes of the tree that
      belong to it alone. */
  ghost predicate FieldsAre(d: CachedDirectory, c: Cached, nodes: set<CachedDirectory>)
    reads d, nodes`view, nodes`parent, nodes`name
  {
    && c.entry == d.entry && c.depth == d.depth && c.files == d.files
    && c.subs.Keys == d.subdirectories.Keys
    && forall n <- d.subdirectories :: d.subdirectories[n] in nodes && ChildOf(d, n, d.subdirectories[n], c)
  }

  ghost predicate ChildOf(d: CachedDirectory, n: Name, child: CachedDirectory, c: Cached)
    reads child`view, child`parent, child`name
  {
    && child.parent == d && child.name == n && child.level == d.level + 1
    && n in c.subs && c.subs[n] == child.view
  }

  /** A node stands for its value. */
  ghost predicate NodeOk(d: CachedDirectory, nodes: set<CachedDirectory>)
    reads d, nodes`view, nodes`parent, nodes`name
  {
    FieldsAre(d, d.view, nodes)
  }

  ghost predicate TreeOk(nodes: set<CachedDirectory>)
    reads nodes
  {
    forall d <- nodes :: NodeOk(d, nodes)
  }

  /** Every node but one stands for its value. */
  ghost predicate OkExcept(nodes: set<CachedDirectory>, cur: CachedDirectory?)
    reads nodes
  {
    forall d <- nodes :: d != cur ==> NodeOk(d, nodes)
  }

  lemma LastName(rel: Path)
    requires rel != []
    ensures rel == rel[..|rel| - 1] + [rel[|rel| - 1]] && rel[..|rel|] == rel
  {
  }

  function Elems(entries: seq<Entry>): set<Entry> {
    set e | e in entries
  }

  /** The value of a node once its maps have been written. */
  ghost function Replaced(c: Cached, files: map<JPath, Entry>, subs: map<Name, CachedDirectory>): Cached
    reads subs.Values`view
  {
    c.(files := files, subs := map n | n in subs :: subs[n].view)
  }

  ghost function NodeOr(fs: Snapshot, path: Path): Node {
    if NodeAt(fs.root, path).Some? then NodeAt(fs.root, path).value else File
  }

  ghost function WithChild(c: Cached, files: map<JPath, Entry>, n: Name, dir: Cached): Cached {
    c.(files := files, subs := c.subs[n := dir])
  }

  /** The calls made on a record are those of `u`. */
  ghost predicate Makes(events: seq<Event>, u: Changes) {
    forall event :: event in events <==> Has(u, event)
  }

  /** The names that `find` follows from the directory. */
  function NamesTo(c: Cached, target: JPath): Option<Path> {
    if target.Rel? then Some(target.names)
    else if PathOf(c.entry) <= target.names then Some(target.names[|PathOf(c.entry)|..])
    else None
  }

  function FoundAt(c: Cached, target: JPath): Option<Entry> {
    if NamesTo(c, target).None? then None else At(c, NamesTo(c, target).value)
  }

  /** An absolute path that is looked for is found where `Look` finds it. */
  lemma FoundIsLook(c: Cached, target: JPath)
    ensures FoundAt(c, target)
         == if target.Abs? then Look(c, target.names) else Look(c, PathOf(c.entry) + target.names)
  {
    if target.Rel? { assert (PathOf(c.entry) + target.names)[|PathOf(c.entry)|..] == target.names; }
  }

  /** A cached directory is found. */
  lemma FoundDir(c: Cached, target: JPath)
    requires NamesTo(c, target).Some? && DirAt(c, NamesTo(c, target).value).Some?
    ensures FoundAt(c, target) == Some(DirAt(c, NamesTo(c, target).value).value.entry)
  {
    var rel := NamesTo(c, target).value;
    AtDescend(c, rel, []);
    assert rel + [] == rel;
  }

  /** How often listing `target` reports `e`; `directoriesOnly` when a cached file is passed over. */
  ghost function ListedAtCount(c: Cached, target: JPath, maxDepth: int, filter: Entry -> bool, directoriesOnly: bool,
                               e: Entry): nat
  {
    if !c.entry.tp.present || FoundAt(c, target).None? then 0
    else
      var dir := DirAt(c, NamesTo(c, target).value);
      if dir.Some? then ListCount(dir.value, maxDepth, filter, e)
      else One(!directoriesOnly && FoundAt(c, target) == Some(e) && filter(e))
  }

  /** `paths` are the typed paths of the entries that listing `target` reports, as often as it does. */
  ghost predicate ListsPaths(c: Cached, target: JPath, maxDepth: int, filter: TypedPath -> bool,
                             paths: seq<TypedPath>)
  {
    exists entries: seq<Entry> ::
      && paths == Paths(entries)
      && forall e :: multiset(entries)[e] ==
                     ListedAtCount(c, target, maxDepth, (x: Entry) => filter(x.tp), maxDepth != -1, e)
  }

  datatype Found = Missing | FoundEntry(entry: Entry) | FoundDirectory(dir: CachedDirectory)

  class CachedDirectory {
    const depth: int
    const accept: TypedPath -> bool
    var entry: Entry
    var files: map<JPath, Entry>
    var subdirectories: map<Name, CachedDirectory>
    ghost const level: nat
    ghost var parent: CachedDirectory?
    ghost var name: Name
    ghost var view: Cached
    ghost var nodes: set<CachedDirectory>

    /** This directory is the root of a tree of nodes that stand for their values. */
    ghost predicate Rooted()
      reads this, nodes
    {
      this in nodes && TreeOk(nodes) && parent == null
    }

    /** The invariant of the directory that a tree belongs to. */
    ghost predicate Valid()
      reads this, nodes
    {
      Rooted() && Struct(view, PathOf(view.entry)) && level == |PathOf(view.entry)|
    }

    constructor (tp: TypedPath, fs: Snapshot, depth: int, accept: TypedPath -> bool)
      requires tp.path.Abs? && |tp.path.names| <= MAX_INT && depth <= MAX_INT
      ensures Valid() && nodes == {this} && level == |tp.path.names|
      ensures this.depth == depth && this.accept == accept
      ensures view == Cached(Entry(tp, fs.convert(tp.path.names)), depth, map[], map[])
    {
      level := |tp.path.names|;
      this.depth := depth;
      this.accept := accept;
      entry := Entry(tp, fs.convert(tp.path.names));
      files := map[];
      subdirectories := map[];
      view := Cached(Entry(tp, fs.convert(tp.path.names)), depth, map[], map[]);
      parent, name := null, NoName;
      new;
      nodes := {this};
    }

    function GetPath(): Path
      reads this
    {
      PathOf(entry)
    }

    // ----- the ghost value of a tree

    /** `spine` holds the nodes on the way from this directory to the one at `rel`. */
    ghost predicate Spine(spine: seq<CachedDirectory>, rel: Path)
      reads this`nodes, spine`subdirectories
    {
      && |spine| == |rel| + 1 && spine[0] == this
      && (forall i | 0 <= i <= |rel| :: spine[i] in nodes && spine[i].level == level + i)
      && (forall i | 0 <= i < |rel| ::
            rel[i] in spine[i].subdirectories && spine[i].subdirectories[rel[i]] == spine[i + 1])
    }

    /** One step further down. */
    lemma SpineExtend(spine: seq<CachedDirectory>, rel: Path, n: Name)
      requires Spine(spine, rel) && n in spine[|rel|].subdirectories && NodeOk(spine[|rel|], nodes)
      ensures Spine(spine + [spine[|rel|].subdirectories[n]], rel + [n])
    {
    }

    lemma SpinePrefix(spine: seq<CachedDirectory>, rel: Path)
      requires Spine(spine, rel) && rel != []
      ensures Spine(spine[..|rel|], rel[..|rel| - 1])
    {
    }

    /** The last node of a spine stands for the cached directory at `rel`. */
    lemma {:induction false} SpineEnd(spine: seq<CachedDirectory>, rel: Path)
      requires Spine(spine, rel)
      requires forall i | 0 <= i < |rel| :: NodeOk(spine[i], nodes)
      ensures DirAt(view, rel) == Some(spine[|rel|].view)
      decreases |rel|
    {
      if rel != [] {
        LastName(rel);
        SpinePrefix(spine, rel);
        SpineEnd(spine[..|rel|], rel[..|rel| - 1]);
        DirAtExtend(view, rel[..|rel| - 1], rel[|rel| - 1]);
      }
    }

    /** What the parent of the last node becomes when that node becomes `value`. */
    lemma SpineStep(spine: seq<CachedDirectory>, rel: Path, value: Cached)
      requires Spine(spine, rel) && rel != [] && OkExcept(nodes, spine[|rel|])
      ensures Spine(spine[..|rel|], rel[..|rel| - 1])
      ensures var up, n, parent := rel[..|rel| - 1], rel[|rel| - 1], spine[|rel| - 1];
              && ChildOf(parent, n, spine[|rel|], parent.view)
              && Put(view, rel, value) == Put(view, up, parent.view.(subs := parent.view.subs[n := value]))
    {
      SpinePrefix(spine, rel);
      LastName(rel);
      SpineEnd(spine[..|rel|], rel[..|rel| - 1]);
      PutChild(view, rel[..|rel| - 1], rel[|rel| - 1], value);
    }

    /** Gives `cur`, whose fields have changed, its new value; only its parent has to follow. */
    ghost method Relink(cur: CachedDirectory, value: Cached)
      requires cur in nodes && OkExcept(nodes, cur) && FieldsAre(cur, value, nodes)
      modifies cur`view
      ensures cur.view == value && OkExcept(nodes, cur.parent)
    {
      cur.view := value;
    }

    /** The same, and what its parent has to follow to. */
    ghost method RelinkBelow(up: CachedDirectory, n: Name, cur: CachedDirectory, value: Cached)
      requires cur in nodes && up in nodes && up != cur
      requires n in up.subdirectories && up.subdirectories[n] == cur && ChildOf(up, n, cur, up.view)
      requires OkExcept(nodes, cur) && FieldsAre(cur, value, nodes)
      modifies cur`view
      ensures cur.view == value && OkExcept(nodes, up)
      ensures FieldsAre(up, up.view.(subs := up.view.subs[n := value]), nodes)
    {
      Relink(cur, value);
    }

    /** Gives every node on the spine its new value, after the fields of the last one have changed
        to those of `value`. */
    ghost method Rethread(spine: seq<CachedDirectory>, rel: Path, value: Cached)
      requires Spine(spine, rel) && parent == null
      requires OkExcept(nodes, spine[|rel|]) && FieldsAre(spine[|rel|], value, nodes)
      modifies nodes`view
      ensures TreeOk(nodes)
      ensures view == Put(old(view), rel, value)
      decreases |rel|
    {
      var cur := spine[|rel|];
      if rel == [] {
        Relink(cur, value);
      } else {
        var k := |rel| - 1;
        var up, n := spine[k], rel[k];
        SpineStep(spine, rel, value);
        RelinkBelow(up, n, cur, value);
        Rethread(spine[..|rel|], rel[..k], up.view.(subs := up.view.subs[n := value]));
      }
    }

    /** Writes both maps of `cur`; no other node depends on them. */
    method SetMaps(cur: CachedDirectory, files: map<JPath, Entry>, subs: map<Name, CachedDirectory>)
      requires TreeOk(nodes)
      modifies cur`files, cur`subdirectories
      ensures cur.files == files && cur.subdirectories == subs && OkExcept(nodes, cur)
    {
      cur.files := files;
      cur.subdirectories := subs;
    }

    /** Writes both maps of `cur`, with children of its own. */
    method WriteMaps(cur: CachedDirectory, files: map<JPath, Entry>, subs: map<Name, CachedDirectory>)
      returns (ghost value: Cached)
      requires TreeOk(nodes) && cur in nodes
      requires forall n <- subs :: n in cur.subdirectories && subs[n] == cur.subdirectories[n]
      modifies cur`files, cur`subdirectories
      ensures value == old(Replaced(cur.view, files, subs)) && cur.files == files && cur.subdirectories == subs
      ensures OkExcept(nodes, cur) && FieldsAre(cur, value, nodes)
    {
      value := Replaced(cur.view, files, subs);
      assert NodeOk(cur, nodes);
      SetMaps(cur, files, subs);
    }

    /** Writes both maps of the last node of a spine, and rethreads the spine. */
    method Store(cur: CachedDirectory, files: map<JPath, Entry>, subs: map<Name, CachedDirectory>,
                 ghost spine: seq<CachedDirectory>, ghost rel: Path)
      requires Rooted() && Spine(spine, rel) && spine[|rel|] == cur
      requires forall n <- subs :: n in cur.subdirectories && subs[n] == cur.subdirectories[n]
      modifies nodes`view, cur`files, cur`subdirectories
      ensures Rooted() && Spine(spine, rel) && cur.files == files && cur.subdirectories == subs
      ensures view == Put(old(view), rel, old(Replaced(cur.view, files, subs)))
    {
      ghost var value := WriteMaps(cur, files, subs);
      assert Spine(spine, rel);
      Rethread(spine, rel, value);
    }

    /** Writes the entry of the last node of a spine, and rethreads the spine. */
    method SetEntry(cur: CachedDirectory, e: Entry, ghost spine: seq<CachedDirectory>, ghost rel: Path)
      requires Rooted() && Spine(spine, rel) && spine[|rel|] == cur
      modifies nodes`view, cur`entry
      ensures Rooted() && Spine(spine, rel)
      ensures view == Put(old(view), rel, old(cur.view).(entry := e))
    {
      assert NodeOk(cur, nodes);
      ghost var value := cur.view.(entry := e);
      cur.entry := e;
      Rethread(spine, rel, value);
    }

    // ----- walking

    lemma SpineOk(spine: seq<CachedDirectory>, rel: Path)
      requires Spine(spine, rel) && TreeOk(nodes)
      ensures NodeOk(spine[|rel|], nodes)
      ensures DirAt(view, rel) == Some(spine[|rel|].view)
    {
      SpineEnd(spine, rel);
    }

    /** Follows the names down from this directory; null when one of them is no directory. */
    method Descend(names: Path) returns (cur: CachedDirectory?, ghost spine: seq<CachedDirectory>)
      requires this in nodes && TreeOk(nodes)
      ensures cur == null <==> DirAt(view, names).None?
      ensures cur != null ==> Spine(spine, names) && spine[|names|] == cur
    {
      cur, spine := this, [this];
      var i := 0;
      while i < |names| && cur != null
        invariant 0 <= i <= |names|
        invariant cur != null ==> Spine(spine, names[..i]) && spine[i] == cur
        invariant cur == null ==> DirAt(view, names).None?
      {
        ghost var done := names[..i];
        var n := names[i];
        SpineOk(spine, done);
        NextName(view, names, i);
        if n in cur.subdirectories {
          SpineExtend(spine, done, n);
          var next := cur.subdirectories[n];
          spine := spine + [next];
          cur := next;
        } else {
          cur := null;
        }
        i := i + 1;
      }
      if cur != null {
        assert names[..|names|] == names;
        SpineOk(spine, names);
      }
    }

    method FindImpl(parts: Path) returns (r: Found)
      requires Valid() && parts != []
      ensures r.FoundDirectory? ==> DirAt(view, parts) == Some(r.dir.view) && r.dir in nodes
      ensures r.FoundEntry? ==> At(view, parts) == Some(r.entry) && DirAt(view, parts).None?
      ensures r.Missing? <==> At(view, parts).None?
    {
      var up, p := parts[..|parts| - 1], parts[|parts| - 1];
      LastName(parts);
      var cur, spine := Descend(up);
      if cur == null {
        NoParent(view, up, p);
        return Missing;
      }
      AtParent(view, up, p);
      SpineOk(spine, up);
      if p in cur.subdirectories {
        return FoundDirectory(cur.subdirectories[p]);
      } else if Key(p) in cur.files {
        return FoundEntry(Resolve(cur.GetPath(), cur.files[Key(p)]));
      } else {
        return Missing;
      }
    }

    /** `find`: this directory, or a cached directory or file at a path below it; a relative path is
        looked for below this directory. */
    method Find(target: JPath) returns (r: Found)
      requires Valid() && (target.Rel? ==> target.names != [])
      ensures r.FoundDirectory? ==>
                && view.entry.tp.present && NamesTo(view, target).Some? && r.dir in nodes
                && DirAt(view, NamesTo(view, target).value) == Some(r.dir.view)
      ensures r.FoundEntry? ==>
                && NamesTo(view, target).Some? && At(view, NamesTo(view, target).value) == Some(r.entry)
                && DirAt(view, NamesTo(view, target).value).None?
      ensures r.Missing? <==> !view.entry.tp.present || FoundAt(view, target).None?
    {
      assert NodeOk(this, nodes);
      if !entry.tp.present {
        return Missing;
      } else if target == Abs(GetPath()) {
        return FoundDirectory(this);
      } else if target.Rel? {
        r := FindImpl(target.names);
      } else if GetPath() <= target.names {
        r := FindImpl(target.names[|GetPath()|..]);
      } else {
        return Missing;
      }
    }

    // ----- listing

    /** `listImpl`: what this directory reports, in some order of its maps. */
    method ListImpl(maxDepth: int, filter: Entry -> bool, ghost tree: set<CachedDirectory>) returns (result: seq<Entry>)
      requires this in tree && TreeOk(tree) && Struct(view, PathOf(view.entry))
      ensures forall e :: multiset(result)[e] == ListCount(view, maxDepth, filter, e)
      decreases view, 2
    {
      assert NodeOk(this, tree);
      if depth < 0 || maxDepth < 0 {
        return [entry];
      }
      var listed := ListFiles(filter, tree);
      var below := ListSubdirectories(maxDepth, filter, tree);
      result := listed + below;
      forall e
        ensures multiset(result)[e] == ListCount(view, maxDepth, filter, e)
      {
        AllDone(view, PathOf(view.entry), maxDepth, filter, e);
      }
    }

    method ListSubdirectories(maxDepth: int, filter: Entry -> bool, ghost tree: set<CachedDirectory>)
      returns (result: seq<Entry>)
      requires this in tree && TreeOk(tree) && Struct(view, PathOf(view.entry))
      ensures forall e :: multiset(result)[e] ==
                          DoneCount(view, PathOf(view.entry), maxDepth, filter, e, view.subs.Keys)
      decreases view, 1
    {
      assert NodeOk(this, tree);
      result := [];
      var todo := subdirectories.Keys;
      ghost var done := {};
      while todo != {}
        invariant todo <= view.subs.Keys && done == view.subs.Keys - todo
        invariant forall e :: multiset(result)[e] == DoneCount(view, PathOf(view.entry), maxDepth, filter, e, done)
        decreases todo
      {
        var n :| n in todo;
        var child := ListChild(n, maxDepth, filter, tree);
        DoneAppend(view, PathOf(view.entry), maxDepth, filter, result, child, done, n);
        result := result + child;
        todo, done := todo - {n}, done + {n};
      }
      assert done == view.subs.Keys;
    }

    /** The entry of one child, and what lies below it. */
    method ListChild(n: Name, maxDepth: int, filter: Entry -> bool, ghost tree: set<CachedDirectory>)
      returns (result: seq<Entry>)
      requires this in tree && TreeOk(tree) && Struct(view, PathOf(view.entry)) && n in subdirectories
      ensures forall e :: multiset(result)[e] == SubCount(view, maxDepth, filter, e, n)
      decreases view, 0
    {
      assert NodeOk(this, tree);
      var subdir := subdirectories[n];
      assert NodeOk(subdir, tree);
      assert Struct(view.subs[n], PathOf(view.entry) + [n]);
      var resolved := Resolve(GetPath(), subdir.entry);
      var own := if filter(resolved) then [resolved] else [];
      var below := [];
      if maxDepth > 0 {
        below := subdir.ListImpl(maxDepth - 1, filter, tree);
      }
      result := own + below;
      ChildCounted(view, maxDepth, filter, n, own, below);
    }

    lemma ChildCounted(c: Cached, maxDepth: int, filter: Entry -> bool, n: Name, own: seq<Entry>, below: seq<Entry>)
      requires n in c.subs
      requires var resolved := Resolve(PathOf(c.entry), c.subs[n].entry);
               own == if filter(resolved) then [resolved] else []
      requires if maxDepth > 0 then forall e :: multiset(below)[e] == ListCount(c.subs[n], maxDepth - 1, filter, e)
               else below == []
      ensures forall e :: multiset(own + below)[e] == SubCount(c, maxDepth, filter, e, n)
    {
      assert multiset(own + below) == multiset(own) + multiset(below);
    }

    method ListFiles(filter: Entry -> bool, ghost tree: set<CachedDirectory>) returns (result: seq<Entry>)
      requires NodeOk(this, tree) && Struct(view, PathOf(view.entry))
      ensures forall e :: multiset(result)[e] == FilesCount(view, PathOf(view.entry), filter, e, view.files.Keys)
    {
      result := [];
      var todo := files.Keys;
      ghost var done := {};
      while todo != {}
        invariant todo <= view.files.Keys && done == view.files.Keys - todo
        invariant forall e :: multiset(result)[e] == FilesCount(view, PathOf(view.entry), filter, e, done)
        decreases todo
      {
        var k :| k in todo;
        var resolved := Resolve(GetPath(), files[k]);
        var listed := if filter(resolved) then [resolved] else [];
        FilesAppend(view, PathOf(view.entry), filter, result, listed, done, k);
        result := result + listed;
        todo, done := todo - {k}, done + {k};
      }
      assert done == view.files.Keys;
    }

    /** `listEntries` of the directory's own path. */
    method ListEntries(maxDepth: int, filter: Entry -> bool, ghost tree: set<CachedDirectory>)
      returns (result: seq<Entry>)
      requires this in tree && TreeOk(tree) && Struct(view, PathOf(view.entry))
      ensures if view.entry.tp.present then
                && (forall e :: multiset(result)[e] == ListCount(view, maxDepth, filter, e))
                && Elems(result) == ListSet(view, maxDepth, filter)
              else result == []
    {
      assert NodeOk(this, tree);
      if !entry.tp.present {
        return [];
      }
      result := ListImpl(maxDepth, filter, tree);
      forall e
        ensures e in result <==> e in ListSet(view, maxDepth, filter)
      {
        ListCountSet(view, PathOf(view.entry), maxDepth, filter, e);
        assert e in result <==> multiset(result)[e] > 0;
      }
    }

    /** `listEntries` of any path: a cached directory lists itself, a cached file reports itself. */
    method ListEntriesAt(target: JPath, maxDepth: int, filter: Entry -> bool) returns (result: seq<Entry>)
      requires Valid() && (target.Rel? ==> target.names != [])
      ensures forall e :: multiset(result)[e] == ListedAtCount(view, target, maxDepth, filter, false, e)
    {
      var found := Find(target);
      match found {
        case Missing => result := [];
        case FoundEntry(e) => result := if filter(e) then [e] else [];
        case FoundDirectory(dir) =>
          DirAtStruct(view, PathOf(view.entry), NamesTo(view, target).value);
          FoundDir(view, target);
          result := dir.ListImpl(maxDepth, filter, nodes);
      }
    }

    /** `list` of any path: a cached file reports itself only when asked for depth -1. */
    method List(target: JPath, maxDepth: int, filter: TypedPath -> bool) returns (result: seq<TypedPath>)
      requires Valid() && (target.Rel? ==> target.names != [])
      ensures ListsPaths(view, target, maxDepth, filter, result)
    {
      var onPath := (x: Entry) => filter(x.tp);
      var found := Find(target);
      var listed := [];
      match found {
        case Missing =>
        case FoundEntry(e) =>
          if filter(e.tp) && maxDepth == -1 {
            listed := [e];
          }
        case FoundDirectory(dir) =>
          DirAtStruct(view, PathOf(view.entry), NamesTo(view, target).value);
          FoundDir(view, target);
          listed := dir.ListImpl(maxDepth, onPath, nodes);
      }
      result := Paths(listed);
    }

    // ----- remove

    /** What `removeImpl` returns for the name `p` of `cur`. */
    method GoneEntries(cur: CachedDirectory, p: Name) returns (result: seq<Entry>)
      requires TreeOk(nodes) && cur in nodes && Struct(cur.view, PathOf(cur.view.entry))
      ensures Elems(result) == RemovedChild(cur.view, p)
    {
      assert NodeOk(cur, nodes);
      result := [];
      if Key(p) in cur.files {
        result := [SetExists(Resolve(cur.GetPath(), cur.files[Key(p)]), false)];
      }
      if p in cur.subdirectories {
        var dir := cur.subdirectories[p];
        assert NodeOk(dir, nodes) && SubOk(cur.view, p) && Struct(dir.view, PathOf(cur.view.entry) + [p]);
        var listed := dir.ListEntries(MAX_INT, EveryEntry, nodes);
        var gone := MarkGone(listed + [dir.entry]);
        assert Elems(listed + [dir.entry]) == AllEntries(dir.view);
        result := result + gone;
      }
    }

    lemma TakenOut(cur: CachedDirectory, p: Name)
      requires NodeOk(cur, nodes)
      ensures Replaced(cur.view, cur.files - {Key(p)}, cur.subdirectories - {p}) == RemoveChild(cur.view, p)
    {
    }

    /** Takes the name `p` out of both maps of the last node of a spine. */
    method TakeOut(cur: CachedDirectory, p: Name, ghost spine: seq<CachedDirectory>, ghost rel: Path)
      requires Rooted() && Spine(spine, rel) && spine[|rel|] == cur
      modifies nodes
      ensures Rooted() && nodes == old(nodes)
      ensures view == Put(old(view), rel, RemoveChild(old(cur.view), p))
    {
      TakenOut(cur, p);
      Store(cur, cur.files - {Key(p)}, cur.subdirectories - {p}, spine, rel);
    }

    /** `removeImpl`, for at least one name. */
    method RemoveImpl(parts: Path) returns (result: seq<Entry>)
      requires Valid() && parts != []
      modifies nodes
      ensures Valid() && nodes == old(nodes)
      ensures view == RemoveParts(old(view), parts).0
      ensures Elems(result) == RemoveParts(old(view), parts).1
    {
      var up, p := parts[..|parts| - 1], parts[|parts| - 1];
      var cur, spine := Descend(up);
      RemoveLast(view, PathOf(view.entry), parts);
      if cur == null {
        return [];
      }
      SpineOk(spine, up);
      result := GoneEntries(cur, p);
      TakeOut(cur, p, spine, up);
    }

    /** `remove`: an absolute path outside this directory removes nothing. */
    method Remove(target: Path) returns (result: seq<Entry>)
      requires Valid()
      modifies nodes
      ensures Valid() && nodes == old(nodes)
      ensures view == T.Remove(old(view), target).0
      ensures Elems(result) == T.Remove(old(view), target).1
    {
      assert NodeOk(this, nodes);
      if GetPath() <= target {
        result := RemoveImpl(Relativize(GetPath(), target));
      } else {
        return [];
      }
    }

    // ----- init

    /** Takes in the nodes of another tree. */
    ghost method Join(dir: CachedDirectory)
      requires TreeOk(nodes) && dir.Rooted()
      modifies this`nodes
      ensures nodes == old(nodes) + dir.nodes && TreeOk(nodes)
    {
      forall d | d in nodes + dir.nodes
        ensures NodeOk(d, nodes + dir.nodes)
      {
        assert d in nodes ==> NodeOk(d, nodes);
        assert d in dir.nodes ==> NodeOk(d, dir.nodes);
      }
      nodes := nodes + dir.nodes;
    }

    /** Says which directory the root of another tree now belongs to. */
    ghost method Claim(cur: CachedDirectory, n: Name, dir: CachedDirectory)
      requires TreeOk(nodes) && dir in nodes && dir.parent == null
      modifies dir`parent, dir`name
      ensures TreeOk(nodes) && dir.parent == cur && dir.name == n
    {
      assert forall d <- nodes :: NodeOk(d, nodes);
      dir.parent, dir.name := cur, n;
      forall d | d in nodes
        ensures NodeOk(d, nodes)
      {
        assert old(NodeOk(d, nodes));
      }
    }

    /** Writes the files of `cur` and makes the root of another tree its child. */
    method Link(cur: CachedDirectory, files: map<JPath, Entry>, n: Name, dir: CachedDirectory)
      requires TreeOk(nodes) && cur in nodes && dir in nodes
      requires dir.parent == null && dir.level == cur.level + 1
      modifies cur`files, cur`subdirectories, dir`parent, dir`name
      ensures OkExcept(nodes, cur)
      ensures FieldsAre(cur, WithChild(old(cur.view), files, n, old(dir.view)), nodes)
    {
      Claim(cur, n, dir);
      assert NodeOk(cur, nodes);
      SetMaps(cur, files, cur.subdirectories[n := dir]);
    }

    /** Writes the files of `cur` and takes in another tree as its child. */
    method Adopt(cur: CachedDirectory, files: map<JPath, Entry>, n: Name, dir: CachedDirectory)
      returns (ghost value: Cached)
      requires TreeOk(nodes) && cur in nodes && dir.Rooted() && dir.level == cur.level + 1
      modifies this`nodes, cur`files, cur`subdirectories, dir`parent, dir`name
      ensures nodes == old(nodes) + dir.nodes
      ensures value == WithChild(old(cur.view), files, n, old(dir.view))
      ensures OkExcept(nodes, cur) && FieldsAre(cur, value, nodes)
    {
      value := WithChild(cur.view, files, n, dir.view);
      Join(dir);
      Link(cur, files, n, dir);
    }

    ghost method RelinkRoot(value: Cached)
      requires this in nodes && OkExcept(nodes, this) && FieldsAre(this, value, nodes) && parent == null
      modifies this`view
      ensures Rooted() && view == value
    {
      Relink(this, value);
    }

    /** Makes `dir` the child `n` of this directory. */
    method Attach(n: Name, dir: CachedDirectory)
      requires Rooted() && dir.Rooted() && dir !in nodes && dir.level == level + 1
      modifies this, dir`parent, dir`name
      ensures Rooted() && nodes == old(nodes) + old(dir.nodes)
      ensures view == old(view).(subs := old(view).subs[n := old(dir.view)])
    {
      ghost var value := view.(subs := view.subs[n := dir.view]);
      assert NodeOk(this, nodes);
      Join(dir);
      Link(this, files, n, dir);
      RelinkRoot(value);
    }

    /** A new directory, scanned. */
    static method NewScanned(tp: TypedPath, fs: Snapshot, depth: int, accept: TypedPath -> bool)
      returns (dir: CachedDirectory, failed: Option<ListError>)
      requires tp.path.Abs? && |tp.path.names| <= MAX_INT && depth <= MAX_INT && WellFormed(fs.root, [])
      ensures dir.Valid() && fresh(dir.nodes) && dir.level == |tp.path.names|
      ensures dir.view == InitAt(fs, Entry(tp, fs.convert(tp.path.names)), depth, accept)
      ensures failed == if depth >= 0 && ListDirectory(fs, tp.path.names).Failed?
                        then Some(ListDirectory(fs, tp.path.names).error) else None
      decreases NodeOr(fs, tp.path.names), 3
    {
      dir := new CachedDirectory(tp, fs, depth, accept);
      failed := dir.Init(fs);
    }

    /** Keeps an entry as the file `n` of this directory. */
    method PutFile(n: Name, e: Entry)
      requires Rooted()
      modifies this`files, this`subdirectories, this`view
      ensures Rooted()
      ensures view == old(view).(files := old(view).files[Key(n) := e])
    {
      assert NodeOk(this, nodes);
      SetMaps(this, files[Key(n) := e], subdirectories);
      RelinkRoot(view.(files := view.files[Key(n) := e]));
    }

    /** One step of `init`: a listed child is scanned in turn, or kept as a file. */
    method AddListed(fs: Snapshot, file: TypedPath, ghost node: Node)
      requires Rooted() && level == |PathOf(view.entry)| && 0 <= depth <= MAX_INT
      requires WellFormed(fs.root, []) && NodeAt(fs.root, PathOf(view.entry)) == Some(node)
      requires ListedChild(node, PathOf(view.entry), accept, file)
      modifies this
      ensures Rooted() && fresh(nodes - old(nodes))
      ensures var path, n := PathOf(old(view.entry)), file.path.names[|PathOf(old(view.entry))|];
              view == if node.children[n].Folder? && depth > 0
                      then old(view).(subs := old(view).subs[n := BranchOf(node, path, n, depth, accept, fs.convert)])
                      else old(view).(files := old(view).files[Key(n) := LeafOf(node, path, n, fs.convert)])
      decreases node, 0
    {
      assert NodeOk(this, nodes);
      var n := file.path.names[|GetPath()|];
      View.ChildNode(fs, GetPath(), node, n);
      WellFormedAt(fs.root, [], GetPath() + [n]);
      assert [] + (GetPath() + [n]) == GetPath() + [n];
      if IsDirectory(file) && depth > 0 {
        var dir, failed := NewScanned(file, fs, SubdirectoryDepth(depth), accept);
        if failed.None? || Stat(fs, file.path.names).present {
          Attach(n, dir);
        }
      } else {
        PutFile(n, Entry(TypedPath(Key(n), true, file.kind), fs.convert(file.path.names)));
      }
    }

    /** The loop of `init`. */
    method AddAllListed(fs: Snapshot, paths: seq<TypedPath>, ghost node: Node)
      requires Valid() && 0 <= depth <= MAX_INT && view == Cached(view.entry, depth, map[], map[])
      requires WellFormed(fs.root, []) && NodeAt(fs.root, PathOf(view.entry)) == Some(node)
      requires node.Folder? && node.readable
      requires forall t :: t in paths <==> ListedChild(node, PathOf(view.entry), accept, t)
      requires forall i, j | 0 <= i < j < |paths| :: paths[i] != paths[j]
      modifies this
      ensures Rooted() && fresh(nodes - old(nodes))
      ensures view == InitTree(node, PathOf(old(view.entry)), old(view.entry), depth, accept, fs.convert)
      decreases node, 1
    {
      ghost var path, e := PathOf(view.entry), view.entry;
      ghost var done := {};
      PartNone(node, path, e, depth, accept, fs.convert);
      for i := 0 to |paths|
        invariant Rooted() && fresh(nodes - old(nodes))
        invariant done == NamesBelow(path, paths[..i])
        invariant view == Part(InitTree(node, path, e, depth, accept, fs.convert), done)
      {
        NamesMore(node, path, accept, paths, i);
        ghost var n := paths[i].path.names[|path|];
        AddListed(fs, paths[i], node);
        PartMore(node, path, e, depth, accept, fs.convert, done, n);
        done := done + {n};
      }
      AllScanned(node, path, e, depth, accept, fs.convert, paths);
    }

    /** `init`: forgets the contents, and scans the snapshot down to the depth limit. */
    method Init(fs: Snapshot) returns (error: Option<ListError>)
      requires Valid() && WellFormed(fs.root, []) && depth <= MAX_INT
      modifies nodes
      ensures Valid() && fresh(nodes - old(nodes))
      ensures view == InitAt(fs, old(view.entry), depth, accept)
      ensures error == if depth >= 0 && ListDirectory(fs, PathOf(old(view.entry))).Failed?
                       then Some(ListDirectory(fs, PathOf(old(view.entry))).error) else None
      decreases NodeOr(fs, PathOf(view.entry)), 2
    {
      assert NodeOk(this, nodes);
      files := map[];
      subdirectories := map[];
      view := Cached(entry, depth, map[], map[]);
      nodes := {this};
      InitAtStruct(fs, entry, depth, accept);
      if depth >= 0 {
        var r := View.List(fs, GetPath(), 0, accept);
        if r.ListFailed? {
          return Some(r.error);
        }
        ghost var node := NodeAt(fs.root, GetPath()).value;
        OneLevel(node, GetPath(), accept, r.paths);
        AddAllListed(fs, r.paths, node);
      }
      return None;
    }

    // ----- update

    /** Writes the files of the last node of a spine, gives it a new child and rethreads the spine. */
    method StoreChild(cur: CachedDirectory, files: map<JPath, Entry>, n: Name, dir: CachedDirectory,
                      ghost spine: seq<CachedDirectory>, ghost rel: Path)
      requires Rooted() && Spine(spine, rel) && spine[|rel|] == cur
      requires dir.Rooted() && dir !in nodes && dir.level == cur.level + 1
      modifies this`nodes, nodes`view, dir.nodes`view, cur`files, cur`subdirectories, dir`parent, dir`name
      ensures Rooted() && nodes == old(nodes) + old(dir.nodes)
      ensures view == Put(old(view), rel, WithChild(old(cur.view), files, n, old(dir.view)))
    {
      ghost var value := Adopt(cur, files, n, dir);
      assert Spine(spine, rel);
      Rethread(spine, rel, value);
    }

    /** `addDirectory` for a path that turned out to be no directory. */
    method PutStray(cur: CachedDirectory, e: Entry, ghost spine: seq<CachedDirectory>, ghost rel: Path)
      requires Rooted() && Spine(spine, rel) && spine[|rel|] == cur
      modifies nodes
      ensures Rooted() && nodes == old(nodes)
      ensures view == Put(old(view), rel, old(cur.view).(files := old(cur.view).files[e.tp.path := e]))
    {
      assert NodeOk(cur, nodes);
      assert Replaced(cur.view, cur.files[e.tp.path := e], cur.subdirectories)
          == cur.view.(files := cur.view.files[e.tp.path := e]);
      Store(cur, cur.files[e.tp.path := e], cur.subdirectories, spine, rel);
    }

    /** The entries of a directory and of all it lists, by path. */
    method EntryMap(dir: CachedDirectory, ghost tree: set<CachedDirectory>) returns (m: map<Path, Entry>)
      requires dir in tree && TreeOk(tree) && Struct(dir.view, PathOf(dir.view.entry)) && dir.view.entry.tp.present
      ensures Clean(dir.view) ==> m == Flat(dir.view)
    {
      assert NodeOk(dir, tree);
      var listed := dir.ListEntries(MAX_INT, EveryEntry, tree);
      m := FromList([dir.entry] + listed);
      assert Elems([dir.entry] + listed) == AllEntries(dir.view);
      if Clean(dir.view) {
        ListedFlat(dir.view, [dir.entry] + listed, m);
      }
    }

    /** The entries that the child `p` of `cur` held. */
    method PreviousMap(cur: CachedDirectory, p: Name) returns (m: map<Path, Entry>)
      requires TreeOk(nodes) && cur in nodes && Struct(cur.view, PathOf(cur.view.entry))
      ensures Clean(cur.view) ==> m == if p in cur.view.subs then Flat(cur.view.subs[p]) else map[]
    {
      assert NodeOk(cur, nodes);
      if p in cur.subdirectories {
        assert SubOk(cur.view, p) && Struct(cur.view.subs[p], PathOf(cur.view.entry) + [p]);
        m := EntryMap(cur.subdirectories[p], nodes);
      } else {
        m := map[];
      }
    }

    /** `addDirectory` for a directory that is there: it takes the place of the child `p`, and the
        difference is to be reported. */
    method PutDirectory(cur: CachedDirectory, p: Name, dir: CachedDirectory, ghost spine: seq<CachedDirectory>,
                        ghost rel: Path)
      returns (events: seq<Event>)
      requires Rooted() && Spine(spine, rel) && spine[|rel|] == cur && Struct(cur.view, PathOf(cur.view.entry))
      requires dir.Valid() && dir !in nodes && dir.level == cur.level + 1 && dir.view.entry.tp.present
      modifies this`nodes, nodes, dir.nodes
      ensures Rooted() && nodes == old(nodes) + old(dir.nodes)
      ensures view == Put(old(view), rel, PutChildValue(old(cur.view), p, old(dir.view)))
      ensures Clean(old(cur.view)) && Clean(old(dir.view)) ==>
                Makes(events, PutChanges(old(cur.view), p, old(dir.view)))
    {
      var before := PreviousMap(cur, p);
      var after := EntryMap(dir, dir.nodes);
      ghost var keys;
      events, keys := DiffDirectoryEntries(before, after);
      StoreChild(cur, cur.files, p, dir, spine, rel);
    }

    /** Removes a path and reports what was there. */
    method ReportRemoved(target: Path) returns (events: seq<Event>)
      requires Valid()
      modifies nodes
      ensures Valid() && nodes == old(nodes)
      ensures view == T.Remove(old(view), target).0
      ensures Makes(events, Changes({}, {}, T.Remove(old(view), target).1))
    {
      var removed := Remove(target);
      events := Deletions(removed);
    }

    /** `addDirectory` when the path is no directory, or is gone. */
    method AddNothing(cur: CachedDirectory, p: Name, tp: TypedPath, fs: Snapshot, ghost spine: seq<CachedDirectory>,
                      ghost rel: Path)
      returns (events: seq<Event>)
      requires Valid() && Spine(spine, rel) && spine[|rel|] == cur && 0 < cur.depth
      requires tp.path == Abs(PathOf(view.entry) + rel + [p]) && |tp.path.names| <= MAX_INT
      modifies nodes
      ensures Valid() && nodes == old(nodes)
      ensures view == Put(old(view), rel, RemoveChild(BeforeRemoval(old(cur.view), tp, fs), p))
      ensures Makes(events, Changes({}, {}, RemovedChild(BeforeRemoval(old(cur.view), tp, fs), p)))
    {
      SpineOk(spine, rel);
      RemoveAdded(view, PathOf(view.entry), rel, p, tp, fs);
      if !IsDirectory(tp) {
        PutStray(cur, Entry(tp, fs.convert(tp.path.names)), spine, rel);
      }
      events := ReportRemoved(tp.path.names);
    }

    /** `addDirectory` for the child `p` of `cur`. */
    method AddDirectory(cur: CachedDirectory, p: Name, tp: TypedPath, fs: Snapshot, ghost spine: seq<CachedDirectory>,
                        ghost rel: Path)
      returns (events: seq<Event>)
      requires Valid() && Spine(spine, rel) && spine[|rel|] == cur && 0 < cur.depth <= MAX_INT
      requires tp.path == Abs(PathOf(view.entry) + rel + [p]) && |tp.path.names| <= MAX_INT
      requires (IsDirectory(tp) ==> tp.present) && WellFormed(fs.root, [])
      modifies this`nodes, nodes
      ensures Rooted() && fresh(nodes - old(nodes))
      ensures view == Put(old(view), rel, T.AddDirectory(old(cur.view), p, tp, accept, fs).0)
      ensures Clean(old(cur.view)) ==> Makes(events, T.AddDirectory(old(cur.view), p, tp, accept, fs).1)
    {
      SpineOk(spine, rel);
      DirAtStruct(view, PathOf(view.entry), rel);
      AddDirectoryIs(cur.view, p, tp, accept, fs);
      if !IsDirectory(tp) {
        events := AddNothing(cur, p, tp, fs, spine, rel);
      } else {
        var dir, failed := NewScanned(tp, fs, SubdirectoryDepth(cur.depth), accept);
        if failed == Some(NoSuchFile) {
          events := AddNothing(cur, p, tp, fs, spine, rel);
        } else {
          InitAtStruct(fs, Entry(tp, fs.convert(tp.path.names)), SubdirectoryDepth(cur.depth), accept);
          events := PutDirectory(cur, p, dir, spine, rel);
        }
      }
    }

    /** Writes the files of the last node of a spine. */
    method StoreFiles(cur: CachedDirectory, files: map<JPath, Entry>, ghost spine: seq<CachedDirectory>,
                      ghost rel: Path)
      requires Rooted() && Spine(spine, rel) && spine[|rel|] == cur
      modifies nodes`view, cur`files, cur`subdirectories
      ensures Rooted() && Spine(spine, rel) && cur.subdirectories == old(cur.subdirectories)
      ensures view == Put(old(view), rel, old(cur.view).(files := files))
    {
      assert NodeOk(cur, nodes);
      assert Replaced(cur.view, files, cur.subdirectories) == cur.view.(files := files);
      Store(cur, files, cur.subdirectories, spine, rel);
    }

    /** `updateDirectory`: a new entry for the child `p`, which keeps its contents. */
    method UpdateDirectory(cur: CachedDirectory, p: Name, e: Entry, ghost spine: seq<CachedDirectory>, ghost rel: Path)
      returns (events: seq<Event>)
      requires Rooted() && Spine(spine, rel) && spine[|rel|] == cur && p in cur.subdirectories
      modifies nodes
      ensures Rooted() && nodes == old(nodes)
      ensures p in old(cur.view).subs
      ensures view == Put(old(view), rel, InPlace(old(cur.view), p, e))
      ensures events == [Modify(old(cur.view).subs[p].entry, e)]
    {
      SpineOk(spine, rel);
      PutChild(view, rel, p, cur.view.subs[p].(entry := e));
      var dir := cur.subdirectories[p];
      assert NodeOk(dir, nodes);
      events := [Modify(dir.entry, e)];
      SpineExtend(spine, rel, p);
      SetEntry(dir, e, spine + [dir], rel + [p]);
    }

    /** The two writes of a leaf step that keeps the directory `p`. */
    method LeafInPlace(cur: CachedDirectory, p: Name, e: Entry, ghost spine: seq<CachedDirectory>, ghost rel: Path)
      returns (events: seq<Event>)
      requires Rooted() && Spine(spine, rel) && spine[|rel|] == cur && p in cur.subdirectories
      modifies nodes
      ensures Rooted() && nodes == old(nodes)
      ensures p in old(cur.view).subs
      ensures view == Put(old(view), rel, InPlace(old(cur.view).(files := old(cur.view).files - {Key(p)}), p, e))
      ensures events == [Modify(old(cur.view).subs[p].entry, e)]
    {
      SpineOk(spine, rel);
      ghost var start, c1 := view, cur.view.(files := cur.view.files - {Key(p)});
      StoreFiles(cur, cur.files - {Key(p)}, spine, rel);
      SpineOk(spine, rel);
      PutTwice(start, rel, c1, InPlace(c1, p, e));
      events := UpdateDirectory(cur, p, e, spine, rel);
    }

    /** The entry a leaf step replaces. */
    method PreviousEntry(cur: CachedDirectory, p: Name, isDirectory: bool) returns (e: Option<Entry>)
      requires NodeOk(cur, nodes)
      requires p in cur.subdirectories ==> NodeOk(cur.subdirectories[p], nodes)
      ensures e == ReplacedEntry(cur.view, p, isDirectory)
    {
      if Key(p) in cur.files {
        e := Some(Resolve(cur.GetPath(), cur.files[Key(p)]));
      } else if isDirectory && p in cur.subdirectories {
        e := Some(Resolve(cur.GetPath(), cur.subdirectories[p].entry));
      } else {
        e := None;
      }
    }

    /** The writes of a leaf step. */
    method PutLeaf(cur: CachedDirectory, p: Name, e: Entry, rescan: bool, fs: Snapshot,
                   ghost spine: seq<CachedDirectory>, ghost rel: Path)
      returns (events: seq<Event>)
      requires Rooted() && Spine(spine, rel) && spine[|rel|] == cur
      requires e.tp.path.Abs? && |PathOf(e)| == cur.level + 1 <= MAX_INT && e.value == fs.convert(PathOf(e))
      modifies this`nodes, nodes
      ensures Rooted() && fresh(nodes - old(nodes))
      ensures view == Put(old(view), rel, LeafTree(old(cur.view), p, e, rescan))
      ensures if IsDirectory(e.tp) && p in old(cur.view).subs && !rescan
              then events == [Modify(old(cur.view).subs[p].entry, e)] else events == []
    {
      SpineOk(spine, rel);
      LeafIs(cur.view, p, e, rescan);
      events := [];
      if !IsDirectory(e.tp) {
        StoreFiles(cur, cur.files[Key(p) := e], spine, rel);
      } else if p !in cur.subdirectories || rescan {
        var dir := new CachedDirectory(e.tp, fs, -1, accept);
        StoreChild(cur, cur.files - {Key(p)}, p, dir, spine, rel);
      } else {
        events := LeafInPlace(cur, p, e, spine, rel);
      }
    }

    lemma LeafMakes(c: Cached, p: Name, e: Entry, rescan: bool, inPlace: seq<Event>, events: seq<Event>)
      requires inPlace == if IsDirectory(e.tp) && p in c.subs && !rescan then [Modify(c.subs[p].entry, e)] else []
      requires var before, resolved := ReplacedEntry(c, p, IsDirectory(e.tp)), Resolve(PathOf(c.entry), e);
               events == inPlace + [if before.None? then Create(resolved) else Modify(before.value, resolved)]
      ensures Makes(events, LeafChanges(c, p, e, rescan))
    {
      LeafIs(c, p, e, rescan);
    }

    /** `updateImpl` at the last name, for a path that is no directory or lies at the depth limit. */
    method UpdateLeaf(cur: CachedDirectory, p: Name, tp: TypedPath, rescan: bool, fs: Snapshot,
                      ghost spine: seq<CachedDirectory>, ghost rel: Path)
      returns (events: seq<Event>)
      requires Rooted() && Spine(spine, rel) && spine[|rel|] == cur
      requires |PathOf(cur.view.entry)| == cur.level < MAX_INT
      modifies this`nodes, nodes
      ensures Rooted() && fresh(nodes - old(nodes))
      ensures view == Put(old(view), rel, T.UpdateLeaf(old(cur.view), p, tp, rescan, fs).0)
      ensures Makes(events, T.UpdateLeaf(old(cur.view), p, tp, rescan, fs).1)
    {
      SpineOk(spine, rel);
      assert p in cur.subdirectories ==> NodeOk(cur.subdirectories[p], nodes);
      var path := cur.GetPath() + [p];
      var e := Entry(TypedPath(Abs(path), tp.present, tp.kind), fs.convert(path));
      var before := PreviousEntry(cur, p, IsDirectory(tp));
      var resolved := Resolve(cur.GetPath(), e);
      ghost var start := cur.view;
      var inPlace := PutLeaf(cur, p, e, rescan, fs, spine, rel);
      events := inPlace + [if before.None? then Create(resolved) else Modify(before.value, resolved)];
      LeafMakes(start, p, e, rescan, inPlace, events);
    }

    /** `updateImpl` at the last name, for a directory above the depth limit. */
    method UpdateBranch(cur: CachedDirectory, p: Name, tp: TypedPath, rescan: bool, fs: Snapshot,
                        ghost spine: seq<CachedDirectory>, ghost rel: Path)
      returns (events: seq<Event>)
      requires Valid() && Spine(spine, rel) && spine[|rel|] == cur && 0 < cur.depth <= MAX_INT
      requires tp.path == Abs(PathOf(view.entry) + rel + [p]) && |tp.path.names| <= MAX_INT
      requires IsDirectory(tp) && tp.present && WellFormed(fs.root, [])
      modifies this`nodes, nodes
      ensures Rooted() && fresh(nodes - old(nodes))
      ensures view == Put(old(view), rel, BranchStep(old(cur.view), p, tp, rescan, accept, fs).0)
      ensures Clean(old(cur.view)) ==> Makes(events, BranchStep(old(cur.view), p, tp, rescan, accept, fs).1)
    {
      SpineOk(spine, rel);
      if p !in cur.subdirectories || rescan {
        events := AddDirectory(cur, p, tp, fs, spine, rel);
      } else {
        MakesOne(cur.view.subs[p].entry, Entry(tp, fs.convert(tp.path.names)));
        events := UpdateDirectory(cur, p, Entry(tp, fs.convert(tp.path.names)), spine, rel);
      }
    }

    /** `updateImpl` at the last name. */
    method UpdateLast(cur: CachedDirectory, p: Name, tp: TypedPath, rescan: bool, fs: Snapshot,
                      ghost spine: seq<CachedDirectory>, ghost rel: Path)
      returns (events: seq<Event>)
      requires Valid() && Spine(spine, rel) && spine[|rel|] == cur && cur.depth <= MAX_INT
      requires tp.path == Abs(PathOf(view.entry) + rel + [p]) && |tp.path.names| <= MAX_INT
      requires tp.present && WellFormed(fs.root, [])
      modifies this`nodes, nodes
      ensures Rooted() && fresh(nodes - old(nodes))
      ensures view == Put(old(view), rel, T.UpdateLast(old(cur.view), p, tp, rescan, accept, fs).0)
      ensures Clean(old(cur.view)) ==> Makes(events, T.UpdateLast(old(cur.view), p, tp, rescan, accept, fs).1)
    {
      SpineOk(spine, rel);
      DirAtStruct(view, PathOf(view.entry), rel);
      UpdateLastIs(cur.view, p, tp, rescan, accept, fs);
      if !IsDirectory(tp) || cur.depth <= 0 {
        events := UpdateLeaf(cur, p, tp, rescan, fs, spine, rel);
      } else {
        events := UpdateBranch(cur, p, tp, rescan, fs, spine, rel);
      }
    }

    lemma WalkStep(spine: seq<CachedDirectory>, parts: Path, i: nat)
      requires i < |parts| && Spine(spine, parts[..i]) && TreeOk(nodes) && parts[i] in spine[i].subdirectories
      ensures Spine(spine + [spine[i].subdirectories[parts[i]]], parts[..i + 1])
    {
      SpineExtend(spine, parts[..i], parts[i]);
      assert parts[..i + 1] == parts[..i] + [parts[i]];
    }

    /** The walk of `updateImpl`: down to the depth limit, the last name or a missing directory. */
    method Walk(parts: Path) returns (cur: CachedDirectory, i: nat, ghost spine: seq<CachedDirectory>)
      requires this in nodes && TreeOk(nodes) && parts != []
      ensures i < |parts| && Spine(spine, parts[..i]) && spine[i] == cur
      ensures cur.depth < 0 || parts[i] == NoName || i + 1 == |parts| || parts[i] !in cur.subdirectories
    {
      cur, i, spine := this, 0, [this];
      while i + 1 < |parts| && cur.depth >= 0 && parts[i] != NoName && parts[i] in cur.subdirectories
        invariant i < |parts| && Spine(spine, parts[..i]) && spine[i] == cur
      {
        WalkStep(spine, parts, i);
        cur := cur.subdirectories[parts[i]];
        spine := spine + [cur];
        i := i + 1;
      }
    }

    /** The step of `updateImpl` where the walk stopped. */
    method UpdateHere(cur: CachedDirectory, p: Name, last: bool, tp: TypedPath, rescan: bool, fs: Snapshot,
                      ghost spine: seq<CachedDirectory>, ghost rel: Path)
      returns (events: seq<Event>)
      requires Valid() && Spine(spine, rel) && spine[|rel|] == cur && p != NoName && 0 <= cur.depth <= MAX_INT
      requires last ==> tp.path == Abs(PathOf(view.entry) + rel + [p]) && tp.present
      requires |PathOf(view.entry) + rel + [p]| <= MAX_INT && WellFormed(fs.root, [])
      modifies this`nodes, nodes
      ensures Rooted() && fresh(nodes - old(nodes))
      ensures view == Put(old(view), rel, StepHere(old(cur.view), p, last, tp, rescan, accept, fs).0)
      ensures Clean(old(cur.view)) ==> Makes(events, StepHere(old(cur.view), p, last, tp, rescan, accept, fs).1)
    {
      SpineOk(spine, rel);
      DirAtStruct(view, PathOf(view.entry), rel);
      if last {
        events := UpdateLast(cur, p, tp, rescan, fs, spine, rel);
      } else if cur.depth > 0 {
        events := AddDirectory(cur, p, Stat(fs, cur.GetPath() + [p]), fs, spine, rel);
      } else {
        PutSame(view, rel);
        events := [];
      }
    }

    /** `updateImpl`, for at least one name. */
    method UpdateImpl(parts: Path, tp: TypedPath, rescan: bool, fs: Snapshot) returns (events: seq<Event>)
      requires Valid() && ValidUpdate(PathOf(view.entry), parts, tp, fs)
      modifies this`nodes, nodes
      ensures Valid() && fresh(nodes - old(nodes))
      ensures view == UpdateParts(old(view), parts, tp, rescan, accept, fs).0
      ensures Clean(old(view)) ==> Makes(events, UpdateParts(old(view), parts, tp, rescan, accept, fs).1)
    {
      var cur, i, spine := Walk(parts);
      SpineOk(spine, parts[..i]);
      UpdateFrom(view, PathOf(view.entry), parts, i, tp, rescan, accept, fs);
      if cur.depth < 0 || parts[i] == NoName {
        return [];
      }
      events := UpdateHere(cur, parts[i], i + 1 == |parts|, tp, rescan, fs, spine, parts[..i]);
    }

    /** `updateImpl` on the directory itself: a rescan, or a new entry. */
    method UpdateSelf(tp: TypedPath, rescan: bool, fs: Snapshot)
      returns (events: seq<Event>, error: Option<ListError>)
      requires Valid() && ValidCall(PathOf(view.entry), tp, fs) && tp.path.names == PathOf(view.entry)
      requires tp.present && depth <= MAX_INT
      modifies nodes
      ensures Valid() && fresh(nodes - old(nodes))
      ensures var r := UpdateRoot(old(view), tp, rescan, accept, fs);
              && view == r.tree && error == (if r.Threw? then Some(r.error) else None)
              && (Clean(old(view)) && r.Updated? ==> Makes(events, r.changes))
    {
      assert NodeOk(this, nodes);
      UpdateRootStruct(view, PathOf(view.entry), tp, rescan, accept, fs);
      if tp.kind.dir && rescan {
        events, error := Rescan(fs);
      } else {
        var e := Entry(tp, fs.convert(GetPath()));
        MakesOne(view.entry, e);
        events := SetOwnEntry(e);
        error := None;
      }
    }

    method SetOwnEntry(e: Entry) returns (events: seq<Event>)
      requires Rooted()
      modifies nodes
      ensures Rooted() && nodes == old(nodes)
      ensures view == old(view).(entry := e) && events == [Modify(old(view).entry, e)]
    {
      assert NodeOk(this, nodes);
      events := [Modify(entry, e)];
      SetEntry(this, e, [this], []);
    }

    method Rescan(fs: Snapshot) returns (events: seq<Event>, error: Option<ListError>)
      requires Valid() && WellFormed(fs.root, []) && depth <= MAX_INT
      modifies nodes
      ensures Valid() && fresh(nodes - old(nodes))
      ensures view == InitAt(fs, old(view.entry), depth, accept)
      ensures error == if depth >= 0 && ListDirectory(fs, PathOf(old(view.entry))).Failed?
                       then Some(ListDirectory(fs, PathOf(old(view.entry))).error) else None
      ensures Clean(old(view)) && Clean(view) && error.None? ==>
                Makes(events, Diff(ListedMap(old(view)), ListedMap(view)))
    {
      assert NodeOk(this, nodes);
      var before := OwnMap();
      error := Init(fs);
      if error.Some? {
        return [], error;
      }
      var after := OwnMap();
      ghost var keys;
      events, keys := DiffDirectoryEntries(before, after);
    }

    /** The directory's own listing, by path. */
    method OwnMap() returns (m: map<Path, Entry>)
      requires Valid()
      ensures Clean(view) ==> m == ListedMap(view)
    {
      assert NodeOk(this, nodes);
      var listed := ListEntries(depth, EveryEntry, nodes);
      m := FromList(listed);
      if Clean(view) {
        ListedOwn(view, listed, m);
      }
    }

    /** `update`: the events of the call, recorded; an exception when a rescan cannot list the
        directory. */
    method Update(tp: TypedPath, rescan: bool, fs: Snapshot) returns (updates: Updates, error: Option<ListError>)
      requires Valid() && ValidCall(PathOf(view.entry), tp, fs) && depth <= MAX_INT
      modifies this`nodes, nodes
      ensures Valid() && fresh(nodes - old(nodes)) && fresh(updates)
      ensures var r := T.Update(old(view), tp, rescan, accept, fs);
              && view == r.tree && error == (if r.Threw? then Some(r.error) else None)
              && (Clean(old(view)) && r.Updated? ==> updates.Recorded() == r.changes)
    {
      ghost var start := view;
      var events;
      events, error := UpdateCalls(tp, rescan, fs);
      updates := new Updates();
      updates.OnEvents(events);
      if Clean(start) && error.None? {
        SameChanges(updates.Recorded(), T.Update(start, tp, rescan, accept, fs).changes);
      }
    }

    /** The calls that `update` makes on its record. */
    method UpdateCalls(tp: TypedPath, rescan: bool, fs: Snapshot) returns (events: seq<Event>, error: Option<ListError>)
      requires Valid() && ValidCall(PathOf(view.entry), tp, fs) && depth <= MAX_INT
      modifies this`nodes, nodes
      ensures Valid() && fresh(nodes - old(nodes))
      ensures var r := T.Update(old(view), tp, rescan, accept, fs);
              && view == r.tree && error == (if r.Threw? then Some(r.error) else None)
              && (Clean(old(view)) && r.Updated? ==> Makes(events, r.changes))
    {
      assert NodeOk(this, nodes);
      events, error := [], None;
      if accept(tp) {
        if !tp.present {
          events := ReportRemoved(tp.path.names);
        } else if GetPath() == tp.path.names {
          events, error := UpdateSelf(tp, rescan, fs);
        } else {
          ValidBelow(GetPath(), tp, fs);
          events := UpdateImpl(Relativize(GetPath(), tp.path.names), tp, rescan, fs);
        }
      }
    }
  }

  lemma MakesOne(before: Entry, after: Entry)
    ensures Makes([Modify(before, after)], Changes({}, {(before, after)}, {}))
  {
  }

  /** One deletion call for each entry. */
  method Deletions(entries: seq<Entry>) returns (events: seq<Event>)
    ensures Makes(events, Changes({}, {}, Elems(entries)))
  {
    events := [];
    for i := 0 to |entries|
      invariant |events| == i && forall j | 0 <= j < i :: events[j] == Delete(entries[j])
    {
      events := events + [Delete(entries[i])];
    }
    forall e | e in Elems(entries)
      ensures Delete(e) in events
    {
      var i :| 0 <= i < |entries| && entries[i] == e;
      assert events[i] == Delete(e);
    }
  }

  /** `Entries.setExists` of every entry. */
  method MarkGone(entries: seq<Entry>) returns (gone: seq<Entry>)
    ensures Elems(gone) == set e | e in Elems(entries) :: SetExists(e, false)
  {
    gone := [];
    for i := 0 to |entries|
      invariant |gone| == i && forall j | 0 <= j < i :: gone[j] == SetExists(entries[j], false)
    {
      gone := gone + [SetExists(entries[i], false)];
    }
    forall e | e in Elems(entries)
      ensures SetExists(e, false) in gone
    {
      var i :| 0 <= i < |entries| && entries[i] == e;
      assert gone[i] == SetExists(e, false);
    }
  }

  // ----- counting, child by child

  /** How often the files in `done` make a listing report `e`. */
  ghost function FilesCount(c: Cached, path: Path, filter: Entry -> bool, e: Entry, done: set<JPath>): nat {
    if path < PathOf(e) then
      var n := PathOf(e)[|path|];
      (if Key(n) in done then FileCount(c, filter, e, Key(n)) else 0)
      + (if Abs(path + [n]) in done then FileCount(c, filter, e, Abs(path + [n])) else 0)
    else 0
  }

  lemma FilesAppend(c: Cached, path: Path, filter: Entry -> bool, result: seq<Entry>, listed: seq<Entry>,
                    done: set<JPath>, k: JPath)
    requires Struct(c, path) && k in c.files && k !in done
    requires forall e :: multiset(result)[e] == FilesCount(c, path, filter, e, done)
    requires forall e :: multiset(listed)[e] == FileCount(c, filter, e, k)
    ensures forall e :: multiset(result + listed)[e] == FilesCount(c, path, filter, e, done + {k})
  {
    forall e
      ensures multiset(result + listed)[e] == FilesCount(c, path, filter, e, done + {k})
    {
      FilesMore(c, path, filter, e, done, k);
    }
  }

  lemma FilesMore(c: Cached, path: Path, filter: Entry -> bool, e: Entry, done: set<JPath>, k: JPath)
    requires Struct(c, path) && k in c.files && k !in done
    ensures FilesCount(c, path, filter, e, done + {k})
         == FilesCount(c, path, filter, e, done) + FileCount(c, filter, e, k)
  {
    ListSetFiles(c, path, filter, e);
    assert FileOk(c, path, k);
    var n :| ResolvePath(path, k) == path + [n];
    if k.Rel? {
      assert k.names == [k.names[0]] && (path + k.names)[|path|] == k.names[0];
    }
  }

  /** How often the children in `done` make a listing report `e`. */
  ghost function DoneCount(c: Cached, path: Path, maxDepth: int, filter: Entry -> bool, e: Entry, done: set<Name>)
    : nat
  {
    if path < PathOf(e) && PathOf(e)[|path|] in done then SubCount(c, maxDepth, filter, e, PathOf(e)[|path|]) else 0
  }

  lemma DoneMore(c: Cached, path: Path, maxDepth: int, filter: Entry -> bool, e: Entry, done: set<Name>, n: Name)
    requires Struct(c, path) && n in c.subs && n !in done
    ensures DoneCount(c, path, maxDepth, filter, e, done + {n})
         == DoneCount(c, path, maxDepth, filter, e, done) + SubCount(c, maxDepth, filter, e, n)
  {
    assert SubOk(c, n) && Struct(c.subs[n], path + [n]);
    ListedBelow(c.subs[n], path + [n], maxDepth - 1, filter, e);
    assert (path + [n])[|path|] == n;
  }

  lemma DoneAppend(c: Cached, path: Path, maxDepth: int, filter: Entry -> bool, result: seq<Entry>, child: seq<Entry>,
                   done: set<Name>, n: Name)
    requires Struct(c, path) && n in c.subs && n !in done
    requires forall e :: multiset(result)[e] == DoneCount(c, path, maxDepth, filter, e, done)
    requires forall e :: multiset(child)[e] == SubCount(c, maxDepth, filter, e, n)
    ensures forall e :: multiset(result + child)[e] == DoneCount(c, path, maxDepth, filter, e, done + {n})
  {
    forall e
      ensures multiset(result + child)[e] == DoneCount(c, path, maxDepth, filter, e, done + {n})
    {
      DoneMore(c, path, maxDepth, filter, e, done, n);
    }
  }

  lemma AllDone(c: Cached, path: Path, maxDepth: int, filter: Entry -> bool, e: Entry)
    requires c.entry.tp.path == Abs(path) && c.depth >= 0 && maxDepth >= 0
    ensures ListCount(c, maxDepth, filter, e)
         == FilesCount(c, path, filter, e, c.files.Keys) + DoneCount(c, path, maxDepth, filter, e, c.subs.Keys)
  {
  }

  /** The map of a clean listing is the map of the tree. */
  lemma ListedFlat(c: Cached, entries: seq<Entry>, m: map<Path, Entry>)
    requires Struct(c, PathOf(c.entry)) && Clean(c) && Elems(entries) == AllEntries(c)
    requires m.Keys == set e | e in entries :: PathOf(e)
    requires forall q <- m :: m[q] in entries && PathOf(m[q]) == q
    ensures m == Flat(c)
  {
    forall q
      ensures q in m <==> q in Flat(c)
      ensures q in m ==> m[q] == Flat(c)[q]
    {
      if q in m {
        assert m[q] in Elems(entries);
        AllEntriesFlat(c, PathOf(c.entry), m[q]);
      }
      if q in Flat(c) {
        FlatLook(c, q);
        AtStruct(c, PathOf(c.entry), q[|PathOf(c.entry)|..]);
        assert PathOf(c.entry) + q[|PathOf(c.entry)|..] == q;
        AllEntriesFlat(c, PathOf(c.entry), Flat(c)[q]);
        assert Flat(c)[q] in Elems(entries);
      }
    }
  }

  lemma SameChanges(a: Changes, b: Changes)
    requires forall event :: Has(a, event) <==> Has(b, event)
    ensures a == b
  {
    assert forall e :: e in a.creations <==> Has(a, Create(e));
    assert forall e :: e in b.creations <==> Has(b, Create(e));
    assert forall e :: e in a.deletions <==> Has(a, Delete(e));
    assert forall e :: e in b.deletions <==> Has(b, Delete(e));
    assert forall p :: p in a.updates <==> Has(a, Modify(p.0, p.1));
    assert forall p :: p in b.updates <==> Has(b, Modify(p.0, p.1));
  }

  lemma ListedOwn(c: Cached, entries: seq<Entry>, m: map<Path, Entry>)
    requires Struct(c, PathOf(c.entry)) && Clean(c) && Elems(entries) == ListSet(c, c.depth, EveryEntry)
    requires m.Keys == set e | e in entries :: PathOf(e)
    requires forall q <- m :: m[q] in entries && PathOf(m[q]) == q
    ensures m == ListedMap(c)
  {
    forall q
      ensures q in m <==> q in ListedMap(c)
      ensures q in m ==> m[q] == ListedMap(c)[q]
    {
      ListedLook(c, PathOf(c.entry), q);
      if q in m {
        assert m[q] in Elems(entries);
        OwnDepthListing(c, m[q]);
      }
      if q in ListedMap(c) {
        LookKeyed(c, PathOf(c.entry), q);
        OwnDepthListing(c, ListedMap(c)[q]);
        assert ListedMap(c)[q] in Elems(entries);
      }
    }
  }

  /** Listed entries have absolute paths. */
  lemma {:induction false} ListedAbsolute(c: Cached, path: Path, maxDepth: int, filter: Entry -> bool, e: Entry)
    requires Struct(c, path) && ListCount(c, maxDepth, filter, e) > 0
    ensures e.tp.path.Abs?
    decreases c
  {
    if c.depth >= 0 && maxDepth >= 0 {
      var n := PathOf(e)[|path|];
      if n in c.subs && maxDepth > 0 && ListCount(c.subs[n], maxDepth - 1, filter, e) > 0 {
        assert Struct(c.subs[n], path + [n]);
        ListedAbsolute(c.subs[n], path + [n], maxDepth - 1, filter, e);
      }
    }
  }

  /** What `list` promises and what listing the file system promises are the same multiset, after a
      scan of a directory. */
  lemma ListAfterScan(node: Node, path: Path, entry: Entry, depth: int, convert: Path -> Value, maxDepth: int,
                      filter: TypedPath -> bool, cached: seq<TypedPath>, direct: seq<TypedPath>)
    requires WellFormed(node, path) && entry.tp.path == Abs(path) && entry.tp.present
    requires 0 <= depth <= MAX_INT && 0 <= maxDepth <= MAX_INT
    requires ListsPaths(InitTree(node, path, entry, depth, AllPass, convert), Abs(path), maxDepth, filter, cached)
    requires forall t :: multiset(direct)[t] == View.DirectCount(node, path, Min(maxDepth, depth), filter, t)
    ensures multiset(cached) == multiset(direct)
  {
    var c := InitTree(node, path, entry, depth, AllPass, convert);
    var entries := RootEntries(c, path, maxDepth, filter, cached);
    InitTreeStruct(node, path, entry, depth, AllPass, convert);
    forall e | e in entries
      ensures e.tp.path.Abs?
    {
      assert multiset(entries)[e] > 0;
      ListedAbsolute(c, path, maxDepth, (x: Entry) => filter(x.tp), e);
    }
    CacheEqualsDirect(node, path, entry, depth, convert, maxDepth, filter, entries, direct);
  }

  /** Listing the directory itself. */
  lemma RootEntries(c: Cached, path: Path, maxDepth: int, filter: TypedPath -> bool, paths: seq<TypedPath>)
    returns (entries: seq<Entry>)
    requires c.entry.tp.path == Abs(path) && c.entry.tp.present
    requires ListsPaths(c, Abs(path), maxDepth, filter, paths)
    ensures paths == Paths(entries)
    ensures forall e :: multiset(entries)[e] == ListCount(c, maxDepth, (x: Entry) => filter(x.tp), e)
  {
    entries :|
      && paths == Paths(entries)
      && forall e :: multiset(entries)[e] ==
                     ListedAtCount(c, Abs(path), maxDepth, (x: Entry) => filter(x.tp), maxDepth != -1, e);
    assert path[|path|..] == [];
  }

  /** A path that is no directory reports itself, if the filter accepts it, and not when only directories are
      asked for. */
  lemma ListOfFile(node: Node, path: Path, entry: Entry, depth: int, convert: Path -> Value, rel: Path, maxDepth: int,
                   filter: Entry -> bool, directoriesOnly: bool, e: Entry)
    requires WellFormed(node, path) && entry.tp.path == Abs(path) && entry.tp.present && depth <= MAX_INT
    requires rel != [] && Within(depth, |rel|) && NodeAt(node, rel).Some? && !NodeAt(node, rel).value.Folder?
    ensures var c := InitTree(node, path, entry, depth, AllPass, convert);
            var file := Entry(Listed(NodeAt(node, rel).value, path + rel), convert(path + rel));
            ListedAtCount(c, Abs(path + rel), maxDepth, filter, directoriesOnly, e)
            == One(!directoriesOnly && e == file && filter(file))
  {
    FileScanned(node, path, entry, depth, convert, rel);
    FileListedAt(InitTree(node, path, entry, depth, AllPass, convert), path, rel, maxDepth, filter, directoriesOnly, e);
  }

  lemma FileScanned(node: Node, path: Path, entry: Entry, depth: int, convert: Path -> Value, rel: Path)
    requires WellFormed(node, path) && entry.tp.path == Abs(path) && depth <= MAX_INT
    requires rel != [] && Within(depth, |rel|) && NodeAt(node, rel).Some? && !NodeAt(node, rel).value.Folder?
    ensures var c := InitTree(node, path, entry, depth, AllPass, convert);
            At(c, rel) == Some(Entry(Listed(NodeAt(node, rel).value, path + rel), convert(path + rel)))
            && DirAt(c, rel).None?
  {
    var c := InitTree(node, path, entry, depth, AllPass, convert);
    InitTreeStruct(node, path, entry, depth, AllPass, convert);
    InitIsSnapshot(node, path, entry, depth, convert, rel);
    if DirAt(c, rel).Some? { DirectoryEntryAt(c, path, rel); }
  }

  lemma FileListedAt(c: Cached, path: Path, rel: Path, maxDepth: int, filter: Entry -> bool, directoriesOnly: bool,
                     e: Entry)
    requires c.entry.tp.path == Abs(path) && c.entry.tp.present && At(c, rel).Some? && DirAt(c, rel).None?
    ensures ListedAtCount(c, Abs(path + rel), maxDepth, filter, directoriesOnly, e)
         == One(!directoriesOnly && e == At(c, rel).value && filter(e))
  {
    assert (path + rel)[|path|..] == rel;
  }
}
