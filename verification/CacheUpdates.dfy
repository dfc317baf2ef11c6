/** The events of an update explain every change of the cache. */
module CacheUpdates {
  import opened Wrappers
  import opened Entries
  import opened Snapshots
  import opened CacheTree
  import opened CacheInvariants
  import opened CacheListing
  import opened Replays

  /** Every path's change is explained. */
  ghost predicate Explains(c: Cached, u: Changes, c': Cached) {
    forall q :: ExplainedAt(u, q, Look(c, q), Look(c', q))
  }

  /** `Flat(c)` as an optional map; empty for a child that is missing. */
  function FlatOf(c: Option<Cached>): map<Path, Entry> {
    if c.Some? then Flat(c.value) else map[]
  }

  function SubAt(c: Cached, p: Name): Option<Cached> {
    if p in c.subs then Some(c.subs[p]) else None
  }

  /** What is cached at or below the child `p`, and what is not. */
  lemma LookChild(c: Cached, path: Path, p: Name, q: Path)
    requires c.entry.tp.path == Abs(path) && path + [p] <= q
    requires p in c.subs ==> c.subs[p].entry.tp.path == Abs(path + [p])
    requires p in c.subs || q != path + [p] || Key(p) !in c.files
    ensures Look(c, q) == Lookup(FlatOf(SubAt(c, p)), q)
  {
    assert q[|path|..][0] == p && q[|path|..][1..] == q[|path| + 1..];
    if p in c.subs {
      FlatLook(c.subs[p], q);
    }
  }

  /** Paths outside the child `p` are found without it. */
  lemma LookElsewhere(c: Cached, c': Cached, path: Path, p: Name, q: Path)
    requires c.entry == c'.entry && c.entry.tp.path == Abs(path)
    requires c.files - {Key(p)} == c'.files - {Key(p)} && c.subs - {p} == c'.subs - {p}
    requires !(path + [p] <= q)
    ensures Look(c, q) == Look(c', q)
  {
    if path <= q && q != path {
      var n := q[|path|];
      assert q[..|path| + 1] == path + [n];
      assert n != p;
      assert n in c.subs <==> n in c.subs - {p};
      assert n in c'.subs <==> n in c'.subs - {p};
      assert n in c.subs ==> c.subs[n] == (c.subs - {p})[n];
      assert n in c'.subs ==> c'.subs[n] == (c'.subs - {p})[n];
      assert Key(n) in c.files <==> Key(n) in c.files - {Key(p)};
      assert Key(n) in c'.files <==> Key(n) in c'.files - {Key(p)};
      assert Key(n) in c.files ==> c.files[Key(n)] == (c.files - {Key(p)})[Key(n)];
      assert Key(n) in c'.files ==> c'.files[Key(n)] == (c'.files - {Key(p)})[Key(n)];
      assert q[|path|..][0] == n;
    }
  }

  /** A diff explains the step from one map to the other. */
  lemma DiffExplains(before: map<Path, Entry>, after: map<Path, Entry>, q: Path)
    requires forall k <- before :: PathOf(before[k]) == k
    requires forall k <- after :: PathOf(after[k]) == k
    ensures ExplainedAt(Diff(before, after), q, Lookup(before, q), Lookup(after, q))
  {
    var u := Diff(before, after);
    if q in after && q !in before {
      assert Has(u, Create(after[q]));
    } else if q in after {
      assert Has(u, Modify(before[q], after[q]));
    } else if q in before {
      assert Has(u, Delete(before[q]));
    }
  }

  lemma FlatKeyed(c: Cached, path: Path, q: Path)
    requires Struct(c, path) && q in Flat(c)
    ensures PathOf(Flat(c)[q]) == q && path <= q
  {
    FlatLook(c, q);
    AtStruct(c, path, q[|path|..]);
    assert path + q[|path|..] == q;
  }

  /** A removed child is reported entry by entry, as no longer existing. */
  lemma RemovedSound(c: Cached, path: Path, p: Name, e: Entry)
    requires Struct(c, path) && Clean(c) && e in RemovedChild(c, p)
    ensures path + [p] <= PathOf(e)
    ensures Look(c, PathOf(e)).Some? && e == SetExists(Look(c, PathOf(e)).value, false)
  {
    if p in c.subs {
      var e' :| e' in AllEntries(c.subs[p]) && e == SetExists(e', false);
      AllEntriesFlat(c.subs[p], path + [p], e');
      FlatKeyed(c.subs[p], path + [p], PathOf(e'));
      LookStep(c, path, p, PathOf(e'));
    } else {
      assert FileOk(c, path, Key(p));
      assert (path + [p])[|path|..] == [p];
    }
  }

  lemma RemovedComplete(c: Cached, path: Path, p: Name, q: Path)
    requires Struct(c, path) && Clean(c)
    requires path + [p] <= q && Look(c, q).Some?
    ensures SetExists(Look(c, q).value, false) in RemovedChild(c, p)
  {
    if p in c.subs {
      var e := Look(c, q).value;
      LookStep(c, path, p, q);
      AtStruct(c, path, q[|path|..]);
      AllEntriesFlat(c.subs[p], path + [p], e);
      assert path + q[|path|..] == q;
    } else {
      assert q[|path|..][0] == p;
    }
  }

  lemma RemoveChildLook(c: Cached, path: Path, p: Name, q: Path)
    requires c.entry.tp.path == Abs(path)
    ensures Look(RemoveChild(c, p), q) == if path + [p] <= q then None else Look(c, q)
  {
    if path + [p] <= q {
      assert q[|path|..][0] == p;
    } else {
      LookElsewhere(c, RemoveChild(c, p), path, p, q);
    }
  }

  lemma LookKeyed(c: Cached, path: Path, q: Path)
    requires Struct(c, path) && Look(c, q).Some?
    ensures Look(c, q).value.tp.path == Abs(q)
  {
    AtStruct(c, path, q[|path|..]);
    assert path + q[|path|..] == q;
  }

  lemma RemoveChildExplainsAt(c: Cached, path: Path, p: Name, q: Path)
    requires Struct(c, path) && Clean(c)
    ensures ExplainedAt(Changes({}, {}, RemovedChild(c, p)), q, Look(c, q), Look(RemoveChild(c, p), q))
  {
    var u := Changes({}, {}, RemovedChild(c, p));
    RemoveChildLook(c, path, p, q);
    forall event | Has(u, event)
      ensures Truthful(event, q, Look(c, q), Look(RemoveChild(c, p), q))
    {
      RemovedSound(c, path, p, event.entry);
    }
    if Look(c, q) != Look(RemoveChild(c, p), q) {
      RemovedComplete(c, path, p, q);
      LookKeyed(c, path, q);
      assert Has(u, Delete(SetExists(Look(c, q).value, false)));
    }
  }

  lemma RemoveChildExplains(c: Cached, path: Path, p: Name)
    requires Struct(c, path) && Clean(c)
    ensures Explains(c, Changes({}, {}, RemovedChild(c, p)), RemoveChild(c, p))
  {
    forall q
      ensures ExplainedAt(Changes({}, {}, RemovedChild(c, p)), q, Look(c, q), Look(RemoveChild(c, p), q))
    {
      RemoveChildExplainsAt(c, path, p, q);
    }
  }

  /** A new directory in the place of a child, reported as the difference of the two. */
  lemma PutDirectoryExplains(c: Cached, path: Path, p: Name, dir: Cached)
    requires Struct(c, path) && Struct(dir, path + [p])
    requires p in c.subs || Key(p) !in c.files
    ensures Explains(c, Diff(FlatOf(SubAt(c, p)), Flat(dir)), c.(subs := c.subs[p := dir]))
  {
    var before, after, c' := FlatOf(SubAt(c, p)), Flat(dir), c.(subs := c.subs[p := dir]);
    assert KeyedBelow(before, path + [p]) by { if p in c.subs { FlatKeyedBelow(c.subs[p], path + [p]); } }
    FlatKeyedBelow(dir, path + [p]);
    forall q
      ensures ExplainedAt(Diff(before, after), q, Look(c, q), Look(c', q))
    {
      LookPut(c, path, p, dir, q);
      DiffBelowExplains(before, after, path + [p], q, Look(c, q), Look(c', q));
    }
  }

  lemma LookPut(c: Cached, path: Path, p: Name, dir: Cached, q: Path)
    requires c.entry.tp.path == Abs(path) && dir.entry.tp.path == Abs(path + [p])
    requires if p in c.subs then c.subs[p].entry.tp.path == Abs(path + [p]) else Key(p) !in c.files
    ensures var c' := c.(subs := c.subs[p := dir]);
            if path + [p] <= q then
              Look(c, q) == Lookup(FlatOf(SubAt(c, p)), q) && Look(c', q) == Lookup(Flat(dir), q)
            else Look(c, q) == Look(c', q)
  {
    var c' := c.(subs := c.subs[p := dir]);
    if path + [p] <= q {
      LookChild(c, path, p, q);
      LookChild(c', path, p, q);
    } else {
      LookElsewhere(c, c', path, p, q);
    }
  }

  /** A map of paths at or below `path`. */
  ghost predicate KeyedBelow(m: map<Path, Entry>, path: Path) {
    forall k <- m :: PathOf(m[k]) == k && path <= k
  }

  lemma FlatKeyedBelow(c: Cached, path: Path)
    requires Struct(c, path)
    ensures KeyedBelow(Flat(c), path)
  {
    forall k | k in Flat(c)
      ensures PathOf(Flat(c)[k]) == k && path <= k
    {
      FlatKeyed(c, path, k);
    }
  }

  /** A diff explains a change at or below `path`, and says nothing of other paths. */
  lemma DiffBelowExplains(before: map<Path, Entry>, after: map<Path, Entry>, path: Path, q: Path, old': Option<Entry>,
                          new': Option<Entry>)
    requires KeyedBelow(before, path) && KeyedBelow(after, path)
    requires if path <= q then old' == Lookup(before, q) && new' == Lookup(after, q) else old' == new'
    ensures ExplainedAt(Diff(before, after), q, old', new')
  {
    DiffExplains(before, after, q);
  }

  lemma AddDirectoryExplains(c: Cached, path: Path, p: Name, tp: TypedPath, accept: TypedPath -> bool, fs: Snapshot)
    requires Struct(c, path) && Clean(c) && c.depth > 0
    requires tp.path == Abs(path + [p]) && |path + [p]| <= MAX_INT
    requires WellFormed(fs.root, [])
    requires AddsCleanly(c, p, tp, fs)
    ensures Explains(c, AddDirectory(c, p, tp, accept, fs).1, AddDirectory(c, p, tp, accept, fs).0)
  {
    if ListDirectory(fs, tp.path.names) == Failed(NoSuchFile) {
      RemoveChildExplains(c, path, p);
    } else {
      var entry := Entry(tp, fs.convert(tp.path.names));
      InitAtStruct(fs, entry, SubdirectoryDepth(c.depth), accept);
      PutDirectoryExplains(c, path, p, InitAt(fs, entry, SubdirectoryDepth(c.depth), accept));
    }
  }

  /** Replacing the entry of a directory changes what is found at its own path only. */
  lemma LookEntry(c: Cached, path: Path, entry: Entry, q: Path)
    requires c.entry.tp.path == Abs(path) == entry.tp.path
    ensures Look(c.(entry := entry), q) == if q == path then Some(entry) else Look(c, q)
  {
  }

  lemma LeafExplains(c: Cached, path: Path, p: Name, entry: Entry, rescan: bool, q: Path)
    requires Struct(c, path) && Clean(c) && c.depth >= 0 && p != NoName
    requires entry.tp.path == Abs(path + [p]) && entry.tp.present
    requires if IsDirectory(entry.tp) then c.depth == 0 else p !in c.subs
    ensures ExplainedAt(LeafChanges(c, p, entry, rescan), q, Look(c, q), Look(LeafTree(c, p, entry, rescan), q))
  {
    var u, c' := LeafChanges(c, p, entry, rescan), LeafTree(c, p, entry, rescan);
    assert Resolve(path, entry) == entry;
    LeafLook(c, path, p, entry, rescan, q);
    if p in c.subs {
      assert SubOk(c, p);
      assert Look(c, path + [p]) == Some(c.subs[p].entry) by { LookStep(c, path, p, path + [p]); }
      assert Has(u, Modify(c.subs[p].entry, entry));
    } else if Key(p) in c.files {
      assert (path + [p])[|path|..] == [p];
      assert FileOk(c, path, Key(p));
      assert Has(u, Modify(Resolve(path, c.files[Key(p)]), entry));
    } else {
      assert (path + [p])[|path|..] == [p];
      assert Has(u, Create(entry));
    }
  }

  lemma LeafLook(c: Cached, path: Path, p: Name, entry: Entry, rescan: bool, q: Path)
    requires Struct(c, path) && Clean(c) && c.depth >= 0
    requires entry.tp.path == Abs(path + [p]) && entry.tp.present
    requires if IsDirectory(entry.tp) then c.depth == 0 else p !in c.subs
    ensures Look(LeafTree(c, p, entry, rescan), q) == if q == path + [p] then Some(entry) else Look(c, q)
  {
    if path + [p] <= q {
      var rel := q[|path|..];
      assert rel[0] == p && (q == path + [p] <==> rel == [p]);
      LeafAt(c, path, p, entry, rescan, rel);
    } else {
      LeafElsewhere(c, p, entry, rescan);
      LookElsewhere(c, LeafTree(c, p, entry, rescan), path, p, q);
    }
  }

  /** What the leaf step reports, in every structured tree: the entry it stores as an update of the file entry it
      replaces, and of the directory entry when it replaces that in place or there is no file; and as created
      when it replaces nothing. */
  lemma LeafTold(c: Cached, path: Path, p: Name, entry: Entry, rescan: bool, event: Event)
    requires Struct(c, path) && entry.tp.path == Abs(path + [p]) && entry.tp.present
    ensures Has(LeafChanges(c, p, entry, rescan), event) <==>
              var overFile, overDir := Key(p) in c.files, IsDirectory(entry.tp) && p in c.subs;
              match event
              case Create(e) => e == entry && !overFile && !overDir
              case Modify(before, e) =>
                && e == entry
                && ((overFile && before == Resolve(path, c.files[Key(p)]))
                    || (overDir && before == c.subs[p].entry && (!rescan || !overFile)))
              case Delete(_) => false
  {
    if p in c.subs { assert SubOk(c, p) && Struct(c.subs[p], path + [p]); }
  }

  lemma LeafElsewhere(c: Cached, p: Name, entry: Entry, rescan: bool)
    ensures var c' := LeafTree(c, p, entry, rescan);
            c'.entry == c.entry && c'.files - {Key(p)} == c.files - {Key(p)} && c'.subs - {p} == c.subs - {p}
  {
  }

  lemma LeafAt(c: Cached, path: Path, p: Name, entry: Entry, rescan: bool, rel: Path)
    requires Struct(c, path) && Clean(c) && c.depth >= 0 && rel != [] && rel[0] == p
    requires entry.tp.path == Abs(path + [p]) && entry.tp.present
    requires if IsDirectory(entry.tp) then c.depth == 0 else p !in c.subs
    ensures At(LeafTree(c, p, entry, rescan), rel) == if rel == [p] then Some(entry) else At(c, rel)
  {
    var c' := LeafTree(c, p, entry, rescan);
    if p in c.subs {
      assert SubOk(c, p);
      assert c.subs[p].subs == map[] && c.subs[p].files == map[];
      assert At(c', rel) == At(c'.subs[p], rel[1..]) && At(c, rel) == At(c.subs[p], rel[1..]);
    } else if IsDirectory(entry.tp) {
      assert At(c', rel) == At(Cached(entry, -1, map[], map[]), rel[1..]);
    }
  }

  lemma UpdateLastExplains(c: Cached, path: Path, p: Name, tp: TypedPath, rescan: bool, accept: TypedPath -> bool,
                           fs: Snapshot)
    requires Struct(c, path) && Clean(c) && c.depth >= 0 && ValidUpdate(path, [p], tp, fs)
    requires KeepsSlotsApart(c, [p], tp, rescan, fs)
    ensures Explains(c, UpdateLast(c, p, tp, rescan, accept, fs).1, UpdateLast(c, p, tp, rescan, accept, fs).0)
  {
    assert p != NoName by { assert [p][0] == p; }
    if !IsDirectory(tp) || c.depth <= 0 {
      forall q
        ensures ExplainedAt(UpdateLast(c, p, tp, rescan, accept, fs).1, q, Look(c, q),
                            Look(UpdateLast(c, p, tp, rescan, accept, fs).0, q))
      {
        LeafExplains(c, path, p, LeafEntry(c, p, tp, fs), rescan, q);
      }
    } else if p !in c.subs || rescan {
      AddDirectoryExplains(c, path, p, tp, accept, fs);
    } else {
      InPlaceExplains(c, path, p, Entry(tp, fs.convert(tp.path.names)));
    }
  }

  lemma InPlaceExplains(c: Cached, path: Path, p: Name, entry: Entry)
    requires Struct(c, path) && p in c.subs && entry.tp.path == Abs(path + [p])
    ensures Explains(c, Changes({}, {(c.subs[p].entry, entry)}, {}),
                     c.(subs := c.subs[p := c.subs[p].(entry := entry)]))
  {
    var sub := c.subs[p];
    var u, c' := Changes({}, {(sub.entry, entry)}, {}), c.(subs := c.subs[p := sub.(entry := entry)]);
    forall q
      ensures ExplainedAt(u, q, Look(c, q), Look(c', q))
    {
      assert Has(u, Modify(sub.entry, entry));
      LookInPlace(c, path, p, entry, q);
    }
  }

  /** A new entry for a child directory is found under its path; nothing else changes. */
  lemma LookInPlace(c: Cached, path: Path, p: Name, entry: Entry, q: Path)
    requires Struct(c, path) && p in c.subs && entry.tp.path == Abs(path + [p])
    ensures var c' := c.(subs := c.subs[p := c.subs[p].(entry := entry)]);
            if q == path + [p] then Look(c, q) == Some(c.subs[p].entry) && Look(c', q) == Some(entry)
            else Look(c', q) == Look(c, q)
    ensures PathOf(c.subs[p].entry) == path + [p]
  {
    var sub, c' := c.subs[p], c.(subs := c.subs[p := c.subs[p].(entry := entry)]);
    assert SubOk(c, p);
    if path + [p] <= q {
      LookStep(c, path, p, q);
      assert q[|path|..][0] == p && q[|path|..][1..] == q[|path| + 1..];
      LookEntry(sub, path + [p], entry, q);
    } else {
      assert c'.subs - {p} == c.subs - {p};
      LookElsewhere(c, c', path, p, q);
    }
  }

  /** What explains the change of a child explains the change of its parent. */
  lemma SubExplains(c: Cached, path: Path, p: Name, u: Changes, sub: Cached)
    requires Struct(c, path) && p in c.subs && sub.entry == c.subs[p].entry
    requires Explains(c.subs[p], u, sub)
    ensures Explains(c, u, c.(subs := c.subs[p := sub]))
  {
    forall q
      ensures ExplainedAt(u, q, Look(c, q), Look(c.(subs := c.subs[p := sub]), q))
    {
      assert ExplainedAt(u, q, Look(c.subs[p], q), Look(sub, q));
      LookSub(c, path, p, sub, q);
    }
  }

  /** Replacing a child changes what is found below it, and nothing else. */
  lemma LookSub(c: Cached, path: Path, p: Name, sub: Cached, q: Path)
    requires Struct(c, path) && p in c.subs && sub.entry == c.subs[p].entry
    ensures var c' := c.(subs := c.subs[p := sub]);
            if path + [p] <= q then Look(c, q) == Look(c.subs[p], q) && Look(c', q) == Look(sub, q)
            else Look(c', q) == Look(c, q)
  {
    var c' := c.(subs := c.subs[p := sub]);
    assert SubOk(c, p);
    if path + [p] <= q {
      LookStep(c, path, p, q);
      assert q[|path|..][0] == p && q[|path|..][1..] == q[|path| + 1..];
    } else {
      assert c'.subs - {p} == c.subs - {p};
      LookElsewhere(c, c', path, p, q);
    }
  }

  /** One update below the directory: when its guard holds, the events explain every change. */
  lemma {:induction false} UpdatePartsExplains(c: Cached, path: Path, parts: Path, tp: TypedPath, rescan: bool,
                                               accept: TypedPath -> bool, fs: Snapshot)
    requires Struct(c, path) && Clean(c) && ValidUpdate(path, parts, tp, fs)
    requires KeepsSlotsApart(c, parts, tp, rescan, fs)
    ensures var (c', changes) := UpdateParts(c, parts, tp, rescan, accept, fs); Explains(c, changes, c')
    decreases |parts|
  {
    var p := parts[0];
    if c.depth >= 0 && p != NoName {
      if |parts| == 1 {
        assert parts == [p];
        UpdateLastExplains(c, path, p, tp, rescan, accept, fs);
      } else if p in c.subs {
        assert SubOk(c, p);
        ValidUpdateBelow(path, parts, tp, fs);
        UpdatePartsStruct(c.subs[p], path + [p], parts[1..], tp, rescan, accept, fs);
        UpdatePartsExplains(c.subs[p], path + [p], parts[1..], tp, rescan, accept, fs);
        var (sub, u) := UpdateParts(c.subs[p], parts[1..], tp, rescan, accept, fs);
        SubExplains(c, path, p, u, sub);
      } else if c.depth > 0 {
        AddDirectoryExplains(c, path, p, Stat(fs, path + [p]), accept, fs);
      }
    }
  }
}
