/** What is found after an update, at every path and for every filter. */
module CacheFinds {
  import opened Wrappers
  import opened Entries
  import opened Snapshots
  import opened CacheTree
  import opened CacheInvariants
  import opened CacheListing
  import opened CacheInit
  import opened CacheRemove
  import opened CacheDeliveries
  import opened CacheRuns

  /** What a scan of the directory at `path` finds at `rel` below it: what exists within its depth, when the
      filter accepts it and every directory on the way. */
  function ScanFinds(fs: Snapshot, path: Path, depth: int, accept: TypedPath -> bool, rel: Path): Option<Entry> {
    match NodeAt(fs.root, path)
    case None => None
    case Some(node) =>
      if AcceptedAlong(node, path, rel, accept) then ExpectedAt(node, path, depth, fs.convert, rel) else None
  }

  lemma InitFinds(fs: Snapshot, entry: Entry, depth: int, accept: TypedPath -> bool, rel: Path)
    requires entry.tp.path.Abs? && depth <= MAX_INT && WellFormed(fs.root, []) && rel != []
    ensures At(InitAt(fs, entry, depth, accept), rel) == ScanFinds(fs, PathOf(entry), depth, accept, rel)
  {
    if NodeAt(fs.root, PathOf(entry)).Some? {
      WellFormedAt(fs.root, [], PathOf(entry));
      assert [] + PathOf(entry) == PathOf(entry);
      InitTreeAt(NodeAt(fs.root, PathOf(entry)).value, PathOf(entry), entry, depth, accept, fs.convert, rel);
    }
  }

  /** A rescan of the directory itself: below it, what a scan finds now and nothing else. */
  lemma RescanFinds(c: Cached, path: Path, tp: TypedPath, accept: TypedPath -> bool, fs: Snapshot, x: Path)
    requires Struct(c, path) && ValidCall(path, tp, fs) && tp.path.names == path && tp.present && accept(tp)
    requires tp.kind.dir && path < x
    ensures Look(Update(c, tp, true, accept, fs).tree, x) == ScanFinds(fs, path, c.depth, accept, x[|path|..])
  {
    InitFinds(fs, c.entry, c.depth, accept, x[|path|..]);
  }

  // ----- below the directory

  /** The first `i` names lead to the last directory on the way to `parts` that is cached, and one name on. */
  predicate Enters(c: Cached, parts: Path, i: nat) {
    && 0 < i <= |parts| && DirAt(c, parts[..i - 1]).Some?
    && (i < |parts| ==> DirAt(c, parts[..i]).None?)
  }

  /** The typed path that the update works with there: its own at the end, a fresh reading above. */
  function Given(tp: TypedPath, at: Path, last: bool, fs: Snapshot): TypedPath {
    if last then tp else Stat(fs, at)
  }

  /** An update scans a directory above the depth limit that is missing on the way, or at the end is new
      or to be rescanned. */
  predicate Scans(parent: Cached, cached: bool, last: bool, tp: TypedPath, rescan: bool) {
    parent.depth > 0 && (last ==> IsDirectory(tp) && (!cached || rescan))
  }

  /** What is found at `at + rest` after an update that works there. */
  function FindsHere(parent: Cached, at: Path, cached: bool, last: bool, tp: TypedPath, rescan: bool,
                     accept: TypedPath -> bool, fs: Snapshot, before: Option<Entry>, rest: Path): Option<Entry>
  {
    var given := Given(tp, at, last, fs);
    if Scans(parent, cached, last, tp, rescan) then
      if !IsDirectory(given) || NodeAt(fs.root, at).None? then None
      else if rest == [] then Some(Entry(given, fs.convert(at)))
      else ScanFinds(fs, at, SubdirectoryDepth(parent.depth), accept, rest)
    else if last && rest == [] && parent.depth >= 0 && (IsDirectory(tp) || !cached) then
      Some(Entry(tp, fs.convert(at)))
    else before
  }

  lemma LastFinds(c: Cached, path: Path, p: Name, tp: TypedPath, rescan: bool, accept: TypedPath -> bool, fs: Snapshot,
                  rest: Path)
    requires Struct(c, path) && ValidUpdate(path, [p], tp, fs)
    ensures var c' := UpdateParts(c, [p], tp, rescan, accept, fs).0;
            At(c', [p] + rest)
            == FindsHere(c, path + [p], p in c.subs, true, tp, rescan, accept, fs, At(c, [p] + rest), rest)
  {
    var rel := [p] + rest;
    assert p in [p];
    assert rel[0] == p && rel[1..] == rest;
    if Scans(c, p in c.subs, true, tp, rescan) {
      AddFinds(c, path, p, tp, accept, fs, rest);
    } else if c.depth >= 0 {
      KeepsFound(c, path, p, tp, rescan, fs, rest);
    }
  }

  /** A step that scans nothing gives the path itself its entry, unless it is still cached as a directory. */
  lemma KeepsFound(c: Cached, path: Path, p: Name, tp: TypedPath, rescan: bool, fs: Snapshot, rest: Path)
    requires Struct(c, path) && c.depth >= 0 && tp.path == Abs(path + [p]) && tp.present
    requires IsDirectory(tp) && c.depth > 0 ==> p in c.subs && !rescan
    ensures var c' := UpdateLast(c, p, tp, rescan, AllPass, fs).0;
            At(c', [p] + rest)
            == if rest == [] && (IsDirectory(tp) || p !in c.subs) then Some(Entry(tp, fs.convert(path + [p])))
               else At(c, [p] + rest)
  {
    var c', rel := UpdateLast(c, p, tp, rescan, AllPass, fs).0, [p] + rest;
    assert rel[0] == p && rel[1..] == rest;
    if p in c.subs {
      assert SubOk(c, p) && Struct(c.subs[p], path + [p]);
      if rest != [] { LookEntryBelow(c.subs[p], path + [p], Entry(tp, fs.convert(path + [p])), rest); }
    }
  }

  /** `addDirectory`: what the scan finds, or nothing when there is no directory. */
  lemma AddFinds(c: Cached, path: Path, p: Name, tp: TypedPath, accept: TypedPath -> bool, fs: Snapshot, rest: Path)
    requires Struct(c, path) && c.depth > 0 && tp.path == Abs(path + [p]) && WellFormed(fs.root, [])
    ensures At(AddDirectory(c, p, tp, accept, fs).0, [p] + rest)
         == if !IsDirectory(tp) || NodeAt(fs.root, path + [p]).None? then None
            else if rest == [] then Some(Entry(tp, fs.convert(path + [p])))
            else ScanFinds(fs, path + [p], SubdirectoryDepth(c.depth), accept, rest)
  {
    var rel := [p] + rest;
    assert rel[0] == p && rel[1..] == rest;
    if rest != [] {
      InitFinds(fs, Entry(tp, fs.convert(path + [p])), SubdirectoryDepth(c.depth), accept, rest);
    }
  }

  lemma MissingFinds(c: Cached, path: Path, parts: Path, tp: TypedPath, rescan: bool, accept: TypedPath -> bool,
                     fs: Snapshot, rest: Path)
    requires Struct(c, path) && ValidUpdate(path, parts, tp, fs) && |parts| > 1 && parts[0] !in c.subs
    ensures var c', p := UpdateParts(c, parts, tp, rescan, accept, fs).0, parts[0];
            At(c', [p] + rest)
            == FindsHere(c, path + [p], false, false, tp, rescan, accept, fs, At(c, [p] + rest), rest)
  {
    if c.depth > 0 { AddFinds(c, path, parts[0], Stat(fs, path + [parts[0]]), accept, fs, rest); }
  }

  lemma AddOthers(c: Cached, p: Name, tp: TypedPath, accept: TypedPath -> bool, fs: Snapshot, rel: Path)
    requires rel != [] && rel[0] != p && tp.path.Abs?
    ensures At(AddDirectory(c, p, tp, accept, fs).0, rel) == At(c, rel)
  {
  }

  lemma LastOthers(c: Cached, p: Name, tp: TypedPath, rescan: bool, accept: TypedPath -> bool, fs: Snapshot, rel: Path)
    requires rel != [] && rel[0] != p && tp.path.Abs?
    ensures At(UpdateLast(c, p, tp, rescan, accept, fs).0, rel) == At(c, rel)
  {
    if IsDirectory(tp) && c.depth > 0 && (p !in c.subs || rescan) {
      AddOthers(c, p, tp, accept, fs, rel);
    } else {
      assert Key(rel[0]) != Key(p);
    }
  }

  /** An update touches only what its first name leads to. */
  lemma FindOthers(c: Cached, parts: Path, tp: TypedPath, rescan: bool, accept: TypedPath -> bool, fs: Snapshot,
                   rel: Path)
    requires parts != [] && tp.path.Abs? && (rel != [] ==> rel[0] != parts[0])
    ensures At(UpdateParts(c, parts, tp, rescan, accept, fs).0, rel) == At(c, rel)
    ensures UpdateParts(c, parts, tp, rescan, accept, fs).0.entry == c.entry
  {
    if rel != [] {
      if |parts| == 1 {
        LastOthers(c, parts[0], tp, rescan, accept, fs, rel);
      } else {
        AddOthers(c, parts[0], Stat(fs, PathOf(c.entry) + [parts[0]]), accept, fs, rel);
      }
    }
  }

  lemma EntersSub(c: Cached, path: Path, parts: Path, tp: TypedPath, fs: Snapshot, i: nat)
    requires Struct(c, path) && ValidUpdate(path, parts, tp, fs) && Enters(c, parts, i) && i > 1
    ensures parts[0] in c.subs && parts[0] != NoName && c.depth >= 0
    ensures Struct(c.subs[parts[0]], path + [parts[0]]) && ValidUpdate(path + [parts[0]], parts[1..], tp, fs)
    ensures Enters(c.subs[parts[0]], parts[1..], i - 1)
    ensures DirAt(c.subs[parts[0]], parts[1..][..i - 2]) == DirAt(c, parts[..i - 1])
    ensures DirAt(c.subs[parts[0]], parts[1..]) == DirAt(c, parts)
  {
    DirAtSub(c, parts, i - 1);
    assert parts[0] in parts && SubOk(c, parts[0]);
    ValidUpdateBelow(path, parts, tp, fs);
    if i < |parts| { DirAtSub(c, parts, i); }
  }

  /** There is always such a place. */
  lemma {:induction false} SomeEntry(c: Cached, parts: Path)
    requires parts != []
    ensures exists i: nat :: Enters(c, parts, i)
    decreases |parts|
  {
    DirAtSub(c, parts, 1);
    assert parts[..0] == [];
    if |parts| == 1 || parts[0] !in c.subs {
      assert Enters(c, parts, 1);
    } else {
      SomeEntry(c.subs[parts[0]], parts[1..]);
      var i: nat :| Enters(c.subs[parts[0]], parts[1..], i);
      DirAtSub(c, parts, i);
      if i + 1 < |parts| { DirAtSub(c, parts, i + 1); }
      assert Enters(c, parts, i + 1);
    }
  }

  lemma DirAtSub(c: Cached, parts: Path, i: nat)
    requires 0 < i <= |parts|
    ensures DirAt(c, parts[..i])
         == if parts[0] in c.subs then DirAt(c.subs[parts[0]], parts[1..][..i - 1]) else None
  {
    assert parts[..i][1..] == parts[1..][..i - 1] && parts[..i][0] == parts[0];
  }

  lemma SamePlace(path: Path, parts: Path, i: nat, rel: Path)
    requires 1 < i <= |parts| && rel != [] && rel[0] == parts[0]
    ensures path + parts[..i] == path + [parts[0]] + parts[1..][..i - 1]
    ensures parts[..i] <= rel <==> parts[1..][..i - 1] <= rel[1..]
    ensures i <= |rel| ==> rel[i..] == rel[1..][i - 1..]
  {
    assert parts[..i] == [parts[0]] + parts[1..][..i - 1];
    assert rel == [rel[0]] + rel[1..];
    if parts[1..][..i - 1] <= rel[1..] {
      assert rel[1..][..i - 1] == parts[1..][..i - 1];
      assert rel[..i] == parts[..i];
    }
    if parts[..i] <= rel {
      assert rel[..i] == parts[..i];
      assert rel[1..][..i - 1] == rel[..i][1..] == parts[..i][1..];
    }
  }

  lemma FindsFirst(c: Cached, path: Path, parts: Path, tp: TypedPath, rescan: bool, accept: TypedPath -> bool,
                   fs: Snapshot, rest: Path)
    requires Struct(c, path) && ValidUpdate(path, parts, tp, fs) && Enters(c, parts, 1)
    ensures var c', p := UpdateParts(c, parts, tp, rescan, accept, fs).0, parts[0];
            && parts[..1] == [p] && path + parts[..1] == path + [p] && [p] <= [p] + rest && ([p] + rest)[1..] == rest
            && At(c', [p] + rest)
               == FindsHere(c, path + [p], DirAt(c, parts).Some?, |parts| == 1, tp, rescan, accept, fs,
                            At(c, [p] + rest), rest)
  {
    var p := parts[0];
    assert parts[..1] == [p] && [p][1..] == [] && p in parts;
    assert p in c.subs ==> DirAt(c, [p]).Some?;
    if |parts| == 1 {
      assert parts == [p];
      LastFinds(c, path, p, tp, rescan, accept, fs, rest);
    } else {
      assert p !in c.subs;
      MissingFinds(c, path, parts, tp, rescan, accept, fs, rest);
    }
  }

  /** After `updateImpl`: where it takes hold, what its step leaves; elsewhere, what was found before. */
  lemma {:induction false} PartsFind(c: Cached, path: Path, parts: Path, tp: TypedPath, rescan: bool,
                                     accept: TypedPath -> bool, fs: Snapshot, i: nat, rel: Path)
    requires Struct(c, path) && ValidUpdate(path, parts, tp, fs) && Enters(c, parts, i)
    ensures var c', at := UpdateParts(c, parts, tp, rescan, accept, fs).0, parts[..i];
            At(c', rel)
            == if at <= rel then
                 FindsHere(DirAt(c, parts[..i - 1]).value, path + at, DirAt(c, parts).Some?, i == |parts|, tp, rescan,
                           accept, fs, At(c, rel), rel[i..])
               else At(c, rel)
    decreases |parts|
  {
    var p := parts[0];
    if rel == [] || rel[0] != p {
      FindOthers(c, parts, tp, rescan, accept, fs, rel);
      assert parts[..i][0] == p;
    } else {
      assert rel == [p] + rel[1..] && parts == [p] + parts[1..];
      if i > 1 {
        EntersSub(c, path, parts, tp, fs, i);
        PartsFind(c.subs[p], path + [p], parts[1..], tp, rescan, accept, fs, i - 1, rel[1..]);
        SamePlace(path, parts, i, rel);
      } else {
        FindsFirst(c, path, parts, tp, rescan, accept, fs, rel[1..]);
      }
    }
  }

  /** What is found after an update below the directory, at every path, whatever the filter and the file system.
      `parts[..i]` leads one name past the last cached directory on the way: outside it all is as before; there, a
      directory that is missing or rescanned holds exactly what a filtered scan finds, any other path gets its new
      entry unless it is still cached as a directory, and nothing changes at the depth limit. */
  lemma UpdateFinds(c: Cached, path: Path, tp: TypedPath, rescan: bool, accept: TypedPath -> bool, fs: Snapshot,
                    i: nat, x: Path)
    requires Struct(c, path) && ValidCall(path, tp, fs) && path < tp.path.names && tp.present && accept(tp)
    requires Enters(c, tp.path.names[|path|..], i)
    ensures var parts, at := tp.path.names[|path|..], tp.path.names[..|path| + i];
            Look(Update(c, tp, rescan, accept, fs).tree, x)
            == if at <= x then
                 FindsHere(DirAt(c, parts[..i - 1]).value, at, DirAt(c, parts).Some?, at == tp.path.names, tp, rescan,
                           accept, fs, Look(c, x), x[|at|..])
               else Look(c, x)
  {
    var parts := tp.path.names[|path|..];
    ValidBelow(path, tp, fs);
    assert tp.path.names == path + parts && tp.path.names[..|path| + i] == path + parts[..i];
    FindOthers(c, parts, tp, rescan, accept, fs, []);
    if path <= x {
      var rel := x[|path|..];
      assert x == path + rel;
      PartsFind(c, path, parts, tp, rescan, accept, fs, i, rel);
      PrefixBelow(path, parts[..i], rel);
    } else {
      Above(path, parts[..i], x);
    }
  }

  lemma Above(path: Path, at: Path, x: Path)
    ensures path + at <= x ==> path <= x
  {
    if path + at <= x { assert path == (path + at)[..|path|] == x[..|path + at|][..|path|] == x[..|path|]; }
  }

  lemma PrefixBelow(path: Path, at: Path, rel: Path)
    ensures path + at <= path + rel <==> at <= rel
    ensures at <= rel ==> (path + rel)[|path + at|..] == rel[|at|..]
  {
    if path + at <= path + rel {
      assert at == (path + at)[|path|..] == (path + rel)[..|path + at|][|path|..] == rel[..|at|];
    }
    if at <= rel { assert rel == at + rel[|at|..]; }
  }

  // ----- nothing else

  lemma ScanAccepted(fs: Snapshot, path: Path, depth: int, accept: TypedPath -> bool, rel: Path)
    requires rel != [] && ScanFinds(fs, path, depth, accept, rel).Some?
    ensures accept(ScanFinds(fs, path, depth, accept, rel).value.tp)
  {
    var node := NodeAt(fs.root, path).value;
    if !accept(Listed(NodeAt(node, rel).value, path + rel)) { NotAlong(node, path, rel, accept); }
  }

  lemma AcceptedBelow(c: Cached, path: Path, tp: TypedPath, rescan: bool, accept: TypedPath -> bool, fs: Snapshot,
                      x: Path)
    requires Struct(c, path) && ValidCall(path, tp, fs) && path < tp.path.names && tp.present && accept(tp)
    requires Look(c, x).None? && Look(Update(c, tp, rescan, accept, fs).tree, x).Some?
    ensures var found := Look(Update(c, tp, rescan, accept, fs).tree, x).value.tp;
            accept(found) || (x < tp.path.names && IsDirectory(found))
  {
    var parts := tp.path.names[|path|..];
    SomeEntry(c, parts);
    var i: nat :| Enters(c, parts, i);
    var at := tp.path.names[..|path| + i];
    UpdateFinds(c, path, tp, rescan, accept, fs, i, x);
    if x != at {
      ScanAccepted(fs, at, SubdirectoryDepth(DirAt(c, parts[..i - 1]).value.depth), accept, x[|at|..]);
    }
  }

  /** Whatever an update newly caches below the directory passes the filter, or is a directory on the way to the
      path of the update. */
  lemma OnlyAccepted(c: Cached, path: Path, tp: TypedPath, rescan: bool, accept: TypedPath -> bool, fs: Snapshot,
                     x: Path)
    requires Struct(c, path) && ValidCall(path, tp, fs) && path < x
    requires Look(c, x).None? && Look(Update(c, tp, rescan, accept, fs).tree, x).Some?
    ensures var found := Look(Update(c, tp, rescan, accept, fs).tree, x).value.tp;
            accept(found) || (x < tp.path.names && IsDirectory(found))
  {
    if !tp.present {
      NoneAdded(c, path, tp.path.names, x);
    } else if tp.path.names != path {
      AcceptedBelow(c, path, tp, rescan, accept, fs, x);
    } else {
      UpdateItself(c, path, tp, rescan, accept, fs);
      RescanFinds(c, path, tp, accept, fs, x);
      ScanAccepted(fs, path, c.depth, accept, x[|path|..]);
    }
  }

  /** A removal adds nothing. */
  lemma NoneAdded(c: Cached, path: Path, p: Path, x: Path)
    requires Struct(c, path)
    ensures Look(Remove(c, p).0, x).Some? ==> Look(c, x).Some?
  {
    if path < p { RemoveIsExact(c, path, p); } else { RemoveOutside(c, path, p); }
  }
}
