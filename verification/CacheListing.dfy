/** What listing a cached directory reports. */
module CacheListing {
  import opened Wrappers
  import opened Entries
  import opened CacheTree
  import opened CacheInvariants

  /** The cached directory at a relative path. */
  function DirAt(c: Cached, rel: Path): Option<Cached> {
    if rel == [] then Some(c)
    else if rel[0] in c.subs then DirAt(c.subs[rel[0]], rel[1..])
    else None
  }

  /** In every reachable state an entry is found under its own path, exists, and lies within the
      depth limit of the directory. */
  lemma {:induction false} AtStruct(c: Cached, path: Path, rel: Path)
    requires Struct(c, path) && At(c, rel).Some?
    ensures At(c, rel).value.tp.path == Abs(path + rel)
    ensures rel != [] ==> At(c, rel).value.tp.present && Within(c.depth, |rel|) && c.depth >= 0
    ensures |path| + |rel| <= MAX_INT && rel != [NoName]
    decreases |rel|
  {
    if rel == [] {
      assert path + rel == path;
    } else if rel[0] in c.subs {
      assert SubOk(c, rel[0]);
      AtStruct(c.subs[rel[0]], path + [rel[0]], rel[1..]);
      assert path + rel == path + [rel[0]] + rel[1..];
    } else {
      assert FileOk(c, path, Key(rel[0]));
      assert rel == [rel[0]];
    }
  }

  /** What is cached as a directory is one. */
  lemma {:induction false} DirectoryEntryAt(c: Cached, path: Path, rel: Path)
    requires Struct(c, path) && rel != [] && DirAt(c, rel).Some?
    ensures At(c, rel) == Some(DirAt(c, rel).value.entry) && IsDirectory(DirAt(c, rel).value.entry.tp)
    decreases |rel|
  {
    assert SubOk(c, rel[0]);
    if |rel| > 1 {
      DirectoryEntryAt(c.subs[rel[0]], path + [rel[0]], rel[1..]);
    } else {
      assert rel[1..] == [];
    }
  }

  lemma {:induction false} RelsAt(c: Cached, rel: Path)
    ensures rel in Rels(c) <==> At(c, rel).Some?
    decreases c
  {
    if rel != [] {
      assert rel == [rel[0]] + rel[1..];
      assert Key(rel[0]).names == [rel[0]];
      if rel[0] in c.subs {
        RelsAt(c.subs[rel[0]], rel[1..]);
      } else {
        assert At(c, rel).Some? ==> Key(rel[0]) in c.files && Key(rel[0]).names == rel;
        assert forall n, r | n in c.subs && r in Rels(c.subs[n]) :: ([n] + r)[0] == n;
        forall k | k in c.files && k.Rel? && |k.names| == 1 && rel == k.names
          ensures k == Key(rel[0])
        {
          assert rel == [rel[0]];
        }
      }
    }
  }

  /** `Flat` is the finite map of what `Look` finds. */
  lemma FlatLook(c: Cached, q: Path)
    ensures q in Flat(c) <==> Look(c, q).Some?
    ensures q in Flat(c) ==> Look(c, q) == Some(Flat(c)[q])
  {
    if Look(c, q).Some? {
      var r := q[|PathOf(c.entry)|..];
      RelsAt(c, r);
      assert q == PathOf(c.entry) + r;
    }
  }

  /** A listing entry lies strictly below the directory and within the levels asked for. */
  predicate Below(path: Path, levels: int, q: Path) {
    path < q && |q| - |path| <= levels
  }

  /** The one case where the filter is not consulted: the entry of a directory of negative depth
      that the listing descends into. */
  predicate Unfiltered(c: Cached, path: Path, maxDepth: int, q: Path) {
    Below(path, maxDepth, q) && DirAt(c, q[|path|..]).Some? && DirAt(c, q[|path|..]).value.depth < 0
  }

  /** Exactly what a listing of a directory of depth at least 0 reports. */
  predicate Reported(c: Cached, path: Path, maxDepth: int, accept: Entry -> bool, e: Entry) {
    && e.tp.path.Abs?
    && Below(path, maxDepth + 1, PathOf(e))
    && Look(c, PathOf(e)) == Some(e)
    && (accept(e) || Unfiltered(c, path, maxDepth, PathOf(e)))
  }

  lemma LookStep(c: Cached, path: Path, n: Name, q: Path)
    requires Struct(c, path) && n in c.subs && path + [n] <= q
    ensures Look(c, q) == Look(c.subs[n], q)
    ensures DirAt(c, q[|path|..]) == DirAt(c.subs[n], q[|path| + 1..])
  {
    assert SubOk(c, n);
    assert q[|path|..][1..] == q[|path| + 1..];
    assert q[|path|..][0] == n;
  }

  /** The characterization of `listImpl` on a tree whose slots are apart. */
  lemma {:induction false} ListSetReports(c: Cached, path: Path, maxDepth: int, accept: Entry -> bool, e: Entry)
    requires Struct(c, path) && Clean(c) && c.depth >= 0 && maxDepth >= 0
    ensures e in ListSet(c, maxDepth, accept) <==> Reported(c, path, maxDepth, accept, e)
    decreases c
  {
    if e in ListSet(c, maxDepth, accept) {
      ListSetSound(c, path, maxDepth, accept, e);
    }
    if Reported(c, path, maxDepth, accept, e) {
      ListSetComplete(c, path, maxDepth, accept, e);
    }
  }

  lemma FileReported(c: Cached, path: Path, maxDepth: int, accept: Entry -> bool, k: JPath)
    requires Struct(c, path) && Clean(c) && maxDepth >= 0 && k in c.files
    ensures var e := Resolve(path, c.files[k]); accept(e) ==> Reported(c, path, maxDepth, accept, e)
  {
    assert FileOk(c, path, k);
    var n := k.names[0];
    assert k == Key(n) && (path + [n])[|path|..] == [n];
  }

  lemma SubReported(c: Cached, path: Path, maxDepth: int, accept: Entry -> bool, n: Name)
    requires Struct(c, path) && Clean(c) && maxDepth >= 0 && n in c.subs
    ensures var e := Resolve(path, c.subs[n].entry); accept(e) ==> Reported(c, path, maxDepth, accept, e)
  {
    assert SubOk(c, n);
    LookStep(c, path, n, path + [n]);
  }

  lemma DeeperReported(c: Cached, path: Path, maxDepth: int, accept: Entry -> bool, n: Name, e: Entry)
    requires Struct(c, path) && maxDepth > 0 && n in c.subs
    requires if c.subs[n].depth < 0 then e == c.subs[n].entry
             else Reported(c.subs[n], path + [n], maxDepth - 1, accept, e)
    ensures Reported(c, path, maxDepth, accept, e)
  {
    assert SubOk(c, n);
    LookStep(c, path, n, PathOf(e));
  }

  /** What a listing reports is a child's entry, or reported by a child. */
  lemma ListedThrough(c: Cached, path: Path, maxDepth: int, accept: Entry -> bool, e: Entry) returns (n: Name)
    requires c.entry.tp.path == Abs(path) && c.depth >= 0 && maxDepth >= 0 && e in ListSet(c, maxDepth, accept)
    requires forall k <- c.files :: !(e == Resolve(path, c.files[k]) && accept(e))
    requires forall n <- c.subs :: !(e == Resolve(path, c.subs[n].entry) && accept(e))
    ensures maxDepth > 0 && n in c.subs && e in ListSet(c.subs[n], maxDepth - 1, accept)
  {
    assert e in ListBelow(c, maxDepth - 1, accept);
    n :| n in c.subs && e in ListSet(c.subs[n], maxDepth - 1, accept);
  }

  lemma {:induction false} ListSetSound(c: Cached, path: Path, maxDepth: int, accept: Entry -> bool, e: Entry)
    requires Struct(c, path) && Clean(c) && c.depth >= 0 && maxDepth >= 0
    requires e in ListSet(c, maxDepth, accept)
    ensures Reported(c, path, maxDepth, accept, e)
    decreases c
  {
    if k :| k in c.files && e == Resolve(path, c.files[k]) && accept(e) {
      FileReported(c, path, maxDepth, accept, k);
    } else if n :| n in c.subs && e == Resolve(path, c.subs[n].entry) && accept(e) {
      SubReported(c, path, maxDepth, accept, n);
    } else {
      var n := ListedThrough(c, path, maxDepth, accept, e);
      if c.subs[n].depth >= 0 {
        ListSetSound(c.subs[n], path + [n], maxDepth - 1, accept, e);
      }
      DeeperReported(c, path, maxDepth, accept, n, e);
    }
  }

  lemma ReportedByChild(c: Cached, path: Path, maxDepth: int, accept: Entry -> bool, n: Name, e: Entry)
    requires Struct(c, path) && n in c.subs && path + [n] < PathOf(e) && Reported(c, path, maxDepth, accept, e)
    ensures Reported(c.subs[n], path + [n], maxDepth - 1, accept, e) && maxDepth > 0
    ensures c.subs[n].depth >= 0 && Struct(c.subs[n], path + [n])
  {
    var q := PathOf(e);
    assert SubOk(c, n);
    LookStep(c, path, n, q);
    assert q[|path + [n]|..] == q[|path| + 1..];
    AtStruct(c.subs[n], path + [n], q[|path| + 1..]);
  }

  lemma ThroughChild(c: Cached, maxDepth: int, accept: Entry -> bool, n: Name, e: Entry)
    requires c.depth >= 0 && maxDepth > 0 && n in c.subs && e in ListSet(c.subs[n], maxDepth - 1, accept)
    ensures e in ListSet(c, maxDepth, accept)
  {
    assert e in ListBelow(c, maxDepth - 1, accept);
  }

  lemma {:induction false} ListSetComplete(c: Cached, path: Path, maxDepth: int, accept: Entry -> bool, e: Entry)
    requires Struct(c, path) && Clean(c) && c.depth >= 0 && maxDepth >= 0
    requires Reported(c, path, maxDepth, accept, e)
    ensures e in ListSet(c, maxDepth, accept)
    decreases c
  {
    var q := PathOf(e);
    var rel := q[|path|..];
    var n := rel[0];
    assert q == path + rel;
    if n in c.subs {
      var sub := c.subs[n];
      assert SubOk(c, n);
      assert path + [n] <= q;
      LookStep(c, path, n, q);
      if |rel| == 1 {
        assert q == path + [n] && sub.entry == e == Resolve(path, sub.entry);
        if !accept(e) {
          ThroughChild(c, maxDepth, accept, n, e);
        }
      } else {
        ReportedByChild(c, path, maxDepth, accept, n, e);
        ListSetComplete(sub, path + [n], maxDepth - 1, accept, e);
        ThroughChild(c, maxDepth, accept, n, e);
      }
    } else {
      assert Key(n) in c.files;
    }
  }

  /** A clean tree holds exactly the entries of its map. */
  lemma AllEntriesFlat(c: Cached, path: Path, e: Entry)
    requires Struct(c, path) && Clean(c)
    ensures e in AllEntries(c) <==> e.tp.path.Abs? && Look(c, PathOf(e)) == Some(e)
    ensures e in AllEntries(c) <==> PathOf(e) in Flat(c) && Flat(c)[PathOf(e)] == e && e.tp.path.Abs?
  {
    FlatLook(c, PathOf(e));
    if c.depth >= 0 {
      ListSetReports(c, path, MAX_INT, EveryEntry, e);
    }
    if e.tp.path.Abs? && Look(c, PathOf(e)) == Some(e) {
      var rel := PathOf(e)[|path|..];
      AtStruct(c, path, rel);
      if rel == [] {
        assert PathOf(e) == path;
      }
    }
  }

  /** Listing a directory to its own depth limit reports all it holds. */
  lemma OwnDepthListing(c: Cached, e: Entry)
    requires Struct(c, PathOf(c.entry)) && Clean(c)
    ensures e in ListSet(c, c.depth, EveryEntry) <==>
            e.tp.path.Abs? && Look(c, PathOf(e)) == Some(e) && (c.depth >= 0 ==> PathOf(e) != PathOf(c.entry))
  {
    var path := PathOf(c.entry);
    if c.depth >= 0 {
      ListSetReports(c, path, c.depth, EveryEntry, e);
    }
    if Look(c, PathOf(e)).Some? {
      AtStruct(c, path, PathOf(e)[|path|..]);
      assert path + PathOf(e)[|path|..] == PathOf(e);
    }
  }

  // ----- listing composes

  /** The entries one level below `c`. */
  function OwnEntries(c: Cached): set<Entry> {
    (set k | k in c.files :: Resolve(PathOf(c.entry), c.files[k])) + (set n | n in c.subs :: c.subs[n].entry)
  }

  /** Everything below `c`, whatever its depth. */
  function Everything(c: Cached): set<Entry> {
    OwnEntries(c) + (set n, e | n in c.subs && e in Everything(c.subs[n]) :: e)
  }

  lemma OwnEntryPath(c: Cached, path: Path, e: Entry) returns (n: Name)
    requires Struct(c, path) && e in OwnEntries(c)
    ensures PathOf(e) == path + [n] && |path| < MAX_INT
  {
    if k :| k in c.files && e == Resolve(path, c.files[k]) {
      assert FileOk(c, path, k);
      n :| ResolvePath(path, k) == path + [n];
    } else {
      n :| n in c.subs && e == c.subs[n].entry;
      assert Struct(c.subs[n], path + [n]);
    }
  }

  lemma {:induction false} EverythingBelow(c: Cached, path: Path, e: Entry)
    requires Struct(c, path) && e in Everything(c)
    ensures path < PathOf(e) && |PathOf(e)| <= MAX_INT
    decreases c
  {
    if e in OwnEntries(c) {
      var n := OwnEntryPath(c, path, e);
    } else {
      var n :| n in c.subs && e in Everything(c.subs[n]);
      EverythingBelow(c.subs[n], path + [n], e);
    }
  }

  lemma ListSetOwn(c: Cached, path: Path, maxDepth: int, e: Entry)
    requires Struct(c, path) && c.depth >= 0 && maxDepth >= 0
    ensures e in ListSet(c, maxDepth, EveryEntry) <==>
            e in OwnEntries(c) || (maxDepth > 0 && e in ListBelow(c, maxDepth - 1, EveryEntry))
  {
    forall n | n in c.subs
      ensures Resolve(path, c.subs[n].entry) == c.subs[n].entry
    {
      assert SubOk(c, n) && Struct(c.subs[n], path + [n]);
    }
  }

  /** A listing without a filter holds everything within its levels, in every reachable state. */
  lemma {:induction false} ListLevels(c: Cached, path: Path, maxDepth: int, e: Entry)
    requires Struct(c, path) && c.depth >= 0 && maxDepth >= 0
    ensures e in ListSet(c, maxDepth, EveryEntry) <==> e in Everything(c) && |PathOf(e)| - |path| <= maxDepth + 1
    decreases c
  {
    ListSetOwn(c, path, maxDepth, e);
    if e in OwnEntries(c) {
      var n := OwnEntryPath(c, path, e);
    } else {
      forall n | n in c.subs
        ensures (maxDepth > 0 && e in ListSet(c.subs[n], maxDepth - 1, EveryEntry)) <==>
                (e in Everything(c.subs[n]) && |PathOf(e)| - |path| <= maxDepth + 1)
      {
        ListLevelsSub(c, path, n, maxDepth, e);
        if e in Everything(c.subs[n]) { EverythingBelow(c.subs[n], path + [n], e); }
        if maxDepth > 0 && c.subs[n].depth >= 0 { ListLevels(c.subs[n], path + [n], maxDepth - 1, e); }
      }
    }
  }

  lemma ListLevelsSub(c: Cached, path: Path, n: Name, maxDepth: int, e: Entry)
    requires Struct(c, path) && n in c.subs && e !in OwnEntries(c)
    ensures Struct(c.subs[n], path + [n]) && e != c.subs[n].entry
    ensures c.subs[n].depth < 0 ==> Everything(c.subs[n]) == {}
  {
    assert Struct(c.subs[n], path + [n]);
  }

  /** What lies strictly below a cached subdirectory is what that subdirectory holds. */
  lemma {:induction false} EverythingAt(c: Cached, path: Path, rel: Path, e: Entry)
    requires Struct(c, path) && DirAt(c, rel).Some?
    ensures e in Everything(DirAt(c, rel).value) <==> e in Everything(c) && path + rel < PathOf(e)
    ensures Struct(DirAt(c, rel).value, path + rel)
    decreases |rel|
  {
    if rel == [] {
      assert path + rel == path;
      if e in Everything(c) { EverythingBelow(c, path, e); }
    } else {
      var n := rel[0];
      assert path + rel == path + [n] + rel[1..];
      EverythingAt(c.subs[n], path + [n], rel[1..], e);
      if e in Everything(c) && path + [n] < PathOf(e) {
        OnlyFromChild(c, path, n, e);
      }
    }
  }

  lemma OnlyFromChild(c: Cached, path: Path, n: Name, e: Entry)
    requires Struct(c, path) && n in c.subs && e in Everything(c) && path + [n] < PathOf(e)
    ensures e in Everything(c.subs[n])
  {
    if e in OwnEntries(c) {
      var m := OwnEntryPath(c, path, e);
      assert false;
    } else {
      var m :| m in c.subs && e in Everything(c.subs[m]);
      EverythingBelow(c.subs[m], path + [m], e);
      assert PathOf(e)[|path|] == m == n;
    }
  }

  /** Listing composes, in every reachable state: listing a cached subdirectory of depth at least 0
      to `maxDepth` gives the entries of the root's full listing that lie strictly below it within
      `maxDepth` + 1 levels. */
  lemma ListingComposes(c: Cached, path: Path, rel: Path, maxDepth: int, e: Entry)
    requires Struct(c, path) && DirAt(c, rel).Some? && DirAt(c, rel).value.depth >= 0 && c.depth >= 0 && maxDepth >= 0
    ensures e in ListSet(DirAt(c, rel).value, maxDepth, EveryEntry) <==>
            e in ListSet(c, MAX_INT, EveryEntry) && Below(path + rel, maxDepth + 1, PathOf(e))
  {
    EverythingAt(c, path, rel, e);
    ListLevels(DirAt(c, rel).value, path + rel, maxDepth, e);
    ListLevels(c, path, MAX_INT, e);
    if e in Everything(c) { EverythingBelow(c, path, e); }
  }
}
