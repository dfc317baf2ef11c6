/** Replacing one cached directory inside a tree, and the walks that lead to it. */
module CachePut {
  import opened Wrappers
  import opened Entries
  import opened Snapshots
  import opened CacheTree
  import opened CacheInvariants
  import opened CacheListing
  import opened Replays

  /** `c` with the directory at `rel` replaced. */
  function Put(c: Cached, rel: Path, dir: Cached): Cached {
    if rel == [] then dir
    else if rel[0] in c.subs then c.(subs := c.subs[rel[0] := Put(c.subs[rel[0]], rel[1..], dir)])
    else c
  }

  lemma {:induction false} PutSame(c: Cached, rel: Path)
    requires DirAt(c, rel).Some?
    ensures Put(c, rel, DirAt(c, rel).value) == c
    decreases |rel|
  {
    if rel != [] {
      PutSame(c.subs[rel[0]], rel[1..]);
      assert c.subs[rel[0] := c.subs[rel[0]]] == c.subs;
    }
  }

  lemma {:induction false} PutTwice(c: Cached, rel: Path, first: Cached, second: Cached)
    requires DirAt(c, rel).Some?
    ensures Put(Put(c, rel, first), rel, second) == Put(c, rel, second)
    ensures DirAt(Put(c, rel, first), rel) == Some(first)
    decreases |rel|
  {
    if rel != [] {
      PutTwice(c.subs[rel[0]], rel[1..], first, second);
    }
  }

  lemma {:induction false} DirAtExtend(c: Cached, rel: Path, n: Name)
    requires DirAt(c, rel).Some?
    ensures DirAt(c, rel + [n])
         == if n in DirAt(c, rel).value.subs then Some(DirAt(c, rel).value.subs[n]) else None
    decreases |rel|
  {
    if rel == [] {
      assert rel + [n] == [n] && [n][1..] == [];
    } else {
      DirAtExtend(c.subs[rel[0]], rel[1..], n);
      assert (rel + [n])[1..] == rel[1..] + [n];
    }
  }

  /** Replacing a child of the directory at `rel`. */
  lemma {:induction false} PutChild(c: Cached, rel: Path, n: Name, dir: Cached)
    requires DirAt(c, rel).Some? && n in DirAt(c, rel).value.subs
    ensures var up := DirAt(c, rel).value; Put(c, rel + [n], dir) == Put(c, rel, up.(subs := up.subs[n := dir]))
    decreases |rel|
  {
    if rel == [] {
      assert rel + [n] == [n] && [n][1..] == [];
    } else {
      PutChild(c.subs[rel[0]], rel[1..], n, dir);
      assert (rel + [n])[1..] == rel[1..] + [n];
    }
  }

  lemma {:induction false} DirAtPrefix(c: Cached, a: Path, b: Path)
    requires DirAt(c, a + b).Some?
    ensures DirAt(c, a).Some?
    decreases |a|
  {
    if a != [] {
      assert (a + b)[1..] == a[1..] + b;
      DirAtPrefix(c.subs[a[0]], a[1..], b);
    }
  }

  lemma {:induction false} DirAtStruct(c: Cached, path: Path, rel: Path)
    requires Struct(c, path) && DirAt(c, rel).Some?
    ensures Struct(DirAt(c, rel).value, path + rel)
    ensures Clean(c) ==> Clean(DirAt(c, rel).value)
    decreases |rel|
  {
    if rel == [] {
      assert path + rel == path;
    } else {
      DirAtStruct(c.subs[rel[0]], path + [rel[0]], rel[1..]);
      assert path + rel == path + [rel[0]] + rel[1..];
    }
  }

  lemma {:induction false} RemoveDescend(c: Cached, rel: Path, rest: Path)
    requires DirAt(c, rel).Some? && rest != []
    ensures RemoveParts(c, rel + rest)
         == (Put(c, rel, RemoveParts(DirAt(c, rel).value, rest).0), RemoveParts(DirAt(c, rel).value, rest).1)
    decreases |rel|
  {
    if rel == [] {
      assert rel + rest == rest;
    } else {
      RemoveDescend(c.subs[rel[0]], rel[1..], rest);
      assert (rel + rest)[1..] == rel[1..] + rest;
    }
  }

  lemma {:induction false} UpdateDescend(c: Cached, path: Path, rel: Path, rest: Path, tp: TypedPath, rescan: bool,
                                         accept: TypedPath -> bool, fs: Snapshot)
    requires Struct(c, path) && DirAt(c, rel).Some? && rest != []
    ensures var (dir, changes) := UpdateParts(DirAt(c, rel).value, rest, tp, rescan, accept, fs);
            UpdateParts(c, rel + rest, tp, rescan, accept, fs) == (Put(c, rel, dir), changes)
    decreases |rel|
  {
    if rel == [] {
      assert rel + rest == rest;
    } else {
      assert SubOk(c, rel[0]);
      UpdateDescend(c.subs[rel[0]], path + [rel[0]], rel[1..], rest, tp, rescan, accept, fs);
      assert (rel + rest)[1..] == rel[1..] + rest;
    }
  }

  lemma {:induction false} AtDescend(c: Cached, rel: Path, rest: Path)
    requires DirAt(c, rel).Some?
    ensures At(c, rel + rest) == At(DirAt(c, rel).value, rest)
    ensures DirAt(c, rel + rest) == DirAt(DirAt(c, rel).value, rest)
    decreases |rel|
  {
    if rel == [] {
      assert rel + rest == rest;
    } else {
      AtDescend(c.subs[rel[0]], rel[1..], rest);
      assert (rel + rest)[1..] == rel[1..] + rest;
    }
  }

  /** One name of a walk. */
  lemma NextName(c: Cached, names: Path, i: nat)
    requires i < |names| && DirAt(c, names[..i]).Some?
    ensures names[..i + 1] == names[..i] + [names[i]]
    ensures names[i] !in DirAt(c, names[..i]).value.subs ==> DirAt(c, names).None?
  {
    DirAtExtend(c, names[..i], names[i]);
    if DirAt(c, names).Some? {
      assert names == names[..i + 1] + names[i + 1..];
      DirAtPrefix(c, names[..i + 1], names[i + 1..]);
    }
  }

  /** Nothing is cached below a name that is no cached directory. */
  lemma {:induction false} NoParent(c: Cached, up: Path, p: Name)
    requires DirAt(c, up).None?
    ensures At(c, up + [p]).None? && DirAt(c, up + [p]).None?
    decreases |up|
  {
    assert (up + [p])[1..] == up[1..] + [p];
    if up[0] in c.subs {
      NoParent(c.subs[up[0]], up[1..], p);
    }
  }

  lemma {:induction false} RemoveNowhere(c: Cached, up: Path, p: Name)
    requires DirAt(c, up).None?
    ensures RemoveParts(c, up + [p]) == (c, {})
    decreases |up|
  {
    assert (up + [p])[1..] == up[1..] + [p];
    if up[0] in c.subs {
      RemoveNowhere(c.subs[up[0]], up[1..], p);
      assert c.subs[up[0] := c.subs[up[0]]] == c.subs;
    }
  }

  /** What `removeImpl` does, from its last name. */
  lemma RemoveLast(c: Cached, path: Path, parts: Path)
    requires Struct(c, path) && parts != []
    ensures var up, p := parts[..|parts| - 1], parts[|parts| - 1];
            if DirAt(c, up).None? then RemoveParts(c, parts) == (c, {})
            else
              var dir := DirAt(c, up).value;
              && RemoveParts(c, parts) == (Put(c, up, RemoveChild(dir, p)), RemovedChild(dir, p))
              && Struct(dir, path + up) && PathOf(dir.entry) == path + up
    ensures Struct(RemoveParts(c, parts).0, path) && RemoveParts(c, parts).0.entry == c.entry
  {
    var up, p := parts[..|parts| - 1], parts[|parts| - 1];
    assert parts == up + [p];
    RemovePartsStruct(c, path, parts);
    if DirAt(c, up).None? {
      RemoveNowhere(c, up, p);
    } else {
      DirAtStruct(c, path, up);
      RemoveDescend(c, up, [p]);
    }
  }

  lemma {:induction false} PutStruct(c: Cached, path: Path, rel: Path, dir: Cached)
    requires Struct(c, path) && DirAt(c, rel).Some? && Struct(dir, path + rel)
    requires dir.entry == DirAt(c, rel).value.entry && dir.depth == DirAt(c, rel).value.depth
    ensures Struct(Put(c, rel, dir), path)
    ensures Put(c, rel, dir).entry == c.entry && Put(c, rel, dir).depth == c.depth
    decreases |rel|
  {
    if rel == [] {
      assert path + rel == path;
    } else {
      assert SubOk(c, rel[0]) && path + rel == path + [rel[0]] + rel[1..];
      PutStruct(c.subs[rel[0]], path + [rel[0]], rel[1..], dir);
      ReplaceSub(c, path, rel[0], Put(c.subs[rel[0]], rel[1..], dir));
    }
  }

  /** The directory `addDirectory` leaves behind before it removes the name again: with the entry
      of a path that is no directory, or as it was. */
  function BeforeRemoval(c: Cached, tp: TypedPath, fs: Snapshot): Cached {
    if IsDirectory(tp) then c else c.(files := c.files[tp.path := Entry(tp, fs.convert(tp.path.names))])
  }

  lemma StrayStruct(c: Cached, path: Path, p: Name, tp: TypedPath, fs: Snapshot)
    requires Struct(c, path) && c.depth >= 0 && tp.path == Abs(path + [p]) && |path + [p]| <= MAX_INT
    ensures Struct(BeforeRemoval(c, tp, fs), path)
  {
    var c' := BeforeRemoval(c, tp, fs);
    forall k | k in c'.files
      ensures FileOk(c', path, k)
    {
      if k in c.files { assert FileOk(c, path, k); }
      assert ResolvePath(path, tp.path) == path + [p];
    }
    forall n | n in c'.subs
      ensures SubOk(c', n) && Struct(c'.subs[n], path + [n])
    {
      assert SubOk(c, n);
    }
  }

  lemma RemoveAdded(c: Cached, path: Path, rel: Path, p: Name, tp: TypedPath, fs: Snapshot)
    requires Struct(c, path) && DirAt(c, rel).Some? && DirAt(c, rel).value.depth >= 0
    requires tp.path == Abs(path + rel + [p]) && |path + rel + [p]| <= MAX_INT
    ensures var stray := BeforeRemoval(DirAt(c, rel).value, tp, fs);
            var tree := Put(c, rel, stray);
            && Struct(tree, path) && (IsDirectory(tp) ==> tree == c)
            && Remove(tree, path + rel + [p]) == (Put(c, rel, RemoveChild(stray, p)), RemovedChild(stray, p))
  {
    var dir := DirAt(c, rel).value;
    var stray := BeforeRemoval(dir, tp, fs);
    DirAtStruct(c, path, rel);
    StrayStruct(dir, path + rel, p, tp, fs);
    PutStruct(c, path, rel, stray);
    PutTwice(c, rel, stray, RemoveChild(stray, p));
    PutSame(c, rel);
    RemoveDescend(Put(c, rel, stray), rel, [p]);
    assert (path + rel + [p])[|path|..] == rel + [p];
    assert path + rel + [p] == path + (rel + [p]);
  }

  function PutChildValue(c: Cached, p: Name, dir: Cached): Cached {
    c.(subs := c.subs[p := dir])
  }

  function PutChanges(c: Cached, p: Name, dir: Cached): Changes {
    Diff(if p in c.subs then Flat(c.subs[p]) else map[], Flat(dir))
  }

  /** The two outcomes of `addDirectory`. */
  lemma AddDirectoryIs(c: Cached, p: Name, tp: TypedPath, accept: TypedPath -> bool, fs: Snapshot)
    ensures AddDirectory(c, p, tp, accept, fs)
         == if !IsDirectory(tp) || ListDirectory(fs, tp.path.names) == Failed(NoSuchFile) then
              (RemoveChild(BeforeRemoval(c, tp, fs), p), Changes({}, {}, RemovedChild(BeforeRemoval(c, tp, fs), p)))
            else
              var dir := InitAt(fs, Entry(tp, fs.convert(tp.path.names)), SubdirectoryDepth(c.depth), accept);
              (PutChildValue(c, p, dir), PutChanges(c, p, dir))
  {
  }

  /** A new entry for the child `p`, which keeps its contents. */
  function InPlace(c: Cached, p: Name, e: Entry): Cached
    requires p in c.subs
  {
    c.(subs := c.subs[p := c.subs[p].(entry := e)])
  }

  function ReplacedEntry(c: Cached, p: Name, isDirectory: bool): Option<Entry> {
    if Key(p) in c.files then Some(Resolve(PathOf(c.entry), c.files[Key(p)]))
    else if isDirectory && p in c.subs then Some(Resolve(PathOf(c.entry), c.subs[p].entry))
    else None
  }

  /** The outcomes of a leaf step. */
  lemma LeafIs(c: Cached, p: Name, e: Entry, rescan: bool)
    ensures LeafTree(c, p, e, rescan)
         == if !IsDirectory(e.tp) then c.(files := c.files[Key(p) := e])
            else if p !in c.subs || rescan then
              c.(files := c.files - {Key(p)}, subs := c.subs[p := Cached(e, -1, map[], map[])])
            else InPlace(c.(files := c.files - {Key(p)}), p, e)
    ensures var before, resolved := ReplacedEntry(c, p, IsDirectory(e.tp)), Resolve(PathOf(c.entry), e);
            forall event :: Has(LeafChanges(c, p, e, rescan), event) <==>
              || event == (if before.None? then Create(resolved) else Modify(before.value, resolved))
              || (IsDirectory(e.tp) && p in c.subs && !rescan && event == Modify(c.subs[p].entry, e))
  {
  }

  /** `updateImpl` at the last name, for a directory above the depth limit. */
  function BranchStep(c: Cached, p: Name, tp: TypedPath, rescan: bool, accept: TypedPath -> bool, fs: Snapshot)
    : (Cached, Changes)
  {
    if p !in c.subs || rescan then AddDirectory(c, p, tp, accept, fs)
    else
      var e := Entry(tp, fs.convert(tp.path.names));
      (InPlace(c, p, e), Changes({}, {(c.subs[p].entry, e)}, {}))
  }

  lemma UpdateLastIs(c: Cached, p: Name, tp: TypedPath, rescan: bool, accept: TypedPath -> bool, fs: Snapshot)
    ensures UpdateLast(c, p, tp, rescan, accept, fs)
         == if !IsDirectory(tp) || c.depth <= 0 then UpdateLeaf(c, p, tp, rescan, fs)
            else BranchStep(c, p, tp, rescan, accept, fs)
  {
  }

  /** What `updateImpl` does where its walk stops: at the last name, or at a missing directory. */
  function StepHere(c: Cached, p: Name, last: bool, tp: TypedPath, rescan: bool, accept: TypedPath -> bool,
                    fs: Snapshot)
    : (Cached, Changes)
  {
    if last then UpdateLast(c, p, tp, rescan, accept, fs)
    else if c.depth > 0 then AddDirectory(c, p, Stat(fs, PathOf(c.entry) + [p]), accept, fs)
    else (c, NOTHING)
  }

  lemma UpdateFrom(c: Cached, path: Path, parts: Path, i: nat, tp: TypedPath, rescan: bool,
                   accept: TypedPath -> bool, fs: Snapshot)
    requires Struct(c, path) && ValidUpdate(path, parts, tp, fs) && i < |parts| && DirAt(c, parts[..i]).Some?
    requires var dir := DirAt(c, parts[..i]).value;
             dir.depth < 0 || parts[i] == NoName || i + 1 == |parts| || parts[i] !in dir.subs
    ensures var rel, dir := parts[..i], DirAt(c, parts[..i]).value;
            && UpdateParts(c, parts, tp, rescan, accept, fs)
               == (if dir.depth < 0 || parts[i] == NoName then (c, NOTHING)
                   else
                     var (dir', u) := StepHere(dir, parts[i], i + 1 == |parts|, tp, rescan, accept, fs);
                     (Put(c, rel, dir'), u))
            && PathOf(dir.entry) == path + rel && dir.depth <= MAX_INT && (Clean(c) ==> Clean(dir))
            && |path + rel + [parts[i]]| <= MAX_INT
            && (i + 1 == |parts| ==> tp.path == Abs(path + rel + [parts[i]]))
    ensures Struct(UpdateParts(c, parts, tp, rescan, accept, fs).0, path)
    ensures UpdateParts(c, parts, tp, rescan, accept, fs).0.entry == c.entry
  {
    var rel, dir := parts[..i], DirAt(c, parts[..i]).value;
    assert parts == rel + parts[i..];
    DirAtStruct(c, path, rel);
    UpdatePartsStruct(c, path, parts, tp, rescan, accept, fs);
    UpdateDescend(c, path, rel, parts[i..], tp, rescan, accept, fs);
    PutSame(c, rel);
    if i + 1 == |parts| {
      assert parts[i..] == [parts[i]] && path + parts == path + rel + [parts[i]];
    }
  }

  /** A name below a cached directory. */
  lemma AtParent(c: Cached, up: Path, p: Name)
    requires DirAt(c, up).Some?
    ensures var dir := DirAt(c, up).value;
            && DirAt(c, up + [p]) == (if p in dir.subs then Some(dir.subs[p]) else None)
            && At(c, up + [p]) == (if p in dir.subs then Some(dir.subs[p].entry)
                                   else if Key(p) in dir.files then Some(Resolve(PathOf(dir.entry), dir.files[Key(p)]))
                                   else None)
  {
    AtDescend(c, up, [p]);
    assert [p][1..] == [];
  }

  // ----- counting what a listing reports

  /** How often the file stored under `k` makes a listing report `e`. */
  function FileCount(c: Cached, accept: Entry -> bool, e: Entry, k: JPath): nat {
    One(k in c.files && Resolve(PathOf(c.entry), c.files[k]) == e && accept(e))
  }

  /** How often the child directory `n` makes a listing report `e`. */
  function SubCount(c: Cached, maxDepth: int, accept: Entry -> bool, e: Entry, n: Name): nat
    decreases c, 0
  {
    if n !in c.subs then 0
    else
      One(Resolve(PathOf(c.entry), c.subs[n].entry) == e && accept(e))
      + if maxDepth > 0 then ListCount(c.subs[n], maxDepth - 1, accept, e) else 0
  }

  /** How often `listImpl` reports `e`. */
  function ListCount(c: Cached, maxDepth: int, accept: Entry -> bool, e: Entry): nat
    decreases c, 1
  {
    var path := PathOf(c.entry);
    if c.depth < 0 || maxDepth < 0 then One(e == c.entry)
    else if !(path < PathOf(e)) then 0
    else
      var n := PathOf(e)[|path|];
      FileCount(c, accept, e, Key(n)) + FileCount(c, accept, e, Abs(path + [n])) + SubCount(c, maxDepth, accept, e, n)
  }

  /** A listing reports entries at or below the directory. */
  lemma ListedBelow(c: Cached, path: Path, maxDepth: int, accept: Entry -> bool, e: Entry)
    requires Struct(c, path)
    ensures ListCount(c, maxDepth, accept, e) > 0 ==> path <= PathOf(e)
  {
  }

  /** The set of what is reported. */
  lemma {:induction false} ListCountSet(c: Cached, path: Path, maxDepth: int, accept: Entry -> bool, e: Entry)
    requires Struct(c, path)
    ensures ListCount(c, maxDepth, accept, e) > 0 <==> e in ListSet(c, maxDepth, accept)
    decreases c
  {
    if c.depth >= 0 && maxDepth >= 0 {
      ListSetFiles(c, path, accept, e);
      forall n | n in c.subs
        ensures SubCount(c, maxDepth, accept, e, n) > 0 <==>
                (Resolve(path, c.subs[n].entry) == e && accept(e))
                || (maxDepth > 0 && e in ListSet(c.subs[n], maxDepth - 1, accept))
        ensures SubCount(c, maxDepth, accept, e, n) > 0 ==> path + [n] <= PathOf(e)
      {
        assert SubOk(c, n) && Struct(c.subs[n], path + [n]);
        if maxDepth > 0 {
          ListCountSet(c.subs[n], path + [n], maxDepth - 1, accept, e);
          ListedBelow(c.subs[n], path + [n], maxDepth - 1, accept, e);
        }
      }
      if path < PathOf(e) {
        forall n | n in c.subs && SubCount(c, maxDepth, accept, e, n) > 0
          ensures n == PathOf(e)[|path|]
        {
          assert (path + [n])[|path|] == n;
        }
      }
    }
  }

  lemma ListSetFiles(c: Cached, path: Path, accept: Entry -> bool, e: Entry)
    requires Struct(c, path)
    ensures (exists k :: k in c.files && FileCount(c, accept, e, k) > 0) <==>
            (&& path < PathOf(e)
             && (FileCount(c, accept, e, Key(PathOf(e)[|path|])) > 0
                 || FileCount(c, accept, e, Abs(path + [PathOf(e)[|path|]])) > 0))
  {
    forall k | k in c.files && FileCount(c, accept, e, k) > 0
      ensures path < PathOf(e)
      ensures k == Key(PathOf(e)[|path|]) || k == Abs(path + [PathOf(e)[|path|]])
    {
      assert FileOk(c, path, k);
      var n :| ResolvePath(path, k) == path + [n];
      assert PathOf(e) == path + [n];
      if k.Rel? {
        assert k.names == [k.names[0]];
        assert (path + k.names)[|path|] == k.names[0];
      }
    }
  }
}
